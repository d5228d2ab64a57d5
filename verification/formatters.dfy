/** The input formatters of the playground's form section: they clean what
    the user types into the phone, card, CVC, quantity and currency fields.
    All of them are expression-level string transformations over ASCII
    digits, so they are functions here, with lemmas stating what the
    formatted text holds and how it relates to the digits typed. */
module Formatters {
  import opened Common

  // ---------------------------------------------------------------------
  // Phone: `(abc) def-ghij`
  // ---------------------------------------------------------------------

  /** Digits kept for a phone number: ten for the "+1" country code,
      twelve for any other. */
  function PhoneDigitCap(country: string): (cap: nat)
  {
    if country == "+1" then 10 else 12
  }

  predicate IsPhoneChar(c: char)
  {
    IsDigit(c) || c == '(' || c == ')' || c == ' ' || c == '-'
  }

  predicate PhoneChars(s: string)
  {
    forall i | 0 <= i < |s| :: IsPhoneChar(s[i])
  }

  /** formatPhone: keep the digits up to the country's cap, then lay out
      the first three, the next three and the next four. */
  function FormatPhone(raw: string, country: string): (r: string)
    ensures |r| <= 14
  {
    var digits := Take(Digits(raw), PhoneDigitCap(country));
    var p1 := Slice(digits, 0, 3);
    var p2 := Slice(digits, 3, 6);
    var p3 := Slice(digits, 6, 10);
    if |digits| <= 3 then p1
    else if |digits| <= 6 then "(" + p1 + ") " + p2
    else "(" + p1 + ") " + p2 + "-" + p3
  }

  /** The layout of a formatted phone number, in terms of the first ten
      digits typed: bare digits up to three, `(abc) d..` up to six,
      `(abc) def-g..` beyond. */
  lemma PhoneLayout(raw: string, country: string)
    ensures var d := Take(Digits(raw), 10);
      && (|d| <= 3 ==> FormatPhone(raw, country) == d)
      && (4 <= |d| <= 6 ==> FormatPhone(raw, country) == "(" + d[..3] + ") " + d[3..])
      && (7 <= |d| ==> FormatPhone(raw, country) == "(" + d[..3] + ") " + d[3..6] + "-" + d[6..])
  {
    var all := Digits(raw);
    var digits := Take(all, PhoneDigitCap(country));
    var d := Take(all, 10);
    var r := FormatPhone(raw, country);
    assert d <= digits && |d| == Min(|digits|, 10);
    if |d| <= 3 {
      assert r == Slice(digits, 0, 3) == d;
    } else if |d| <= 6 {
      assert Slice(digits, 0, 3) == d[..3];
      assert Slice(digits, 3, 6) == d[3..];
    } else {
      assert Slice(digits, 0, 3) == d[..3];
      assert Slice(digits, 3, 6) == d[3..6];
      assert d == digits[..|d|];
      assert Slice(digits, 6, 10) == digits[6..|d|] == d[6..];
    }
  }

  /** Digits of a concatenation of a punctuation string and a string of
      digits. */
  lemma DigitsAfterPunctuation(p: string, d: string)
    requires NoDigits(p) && AllDigits(d)
    ensures Digits(p + d) == d
  {
    DigitsAppend(p, d);
    DigitsOfNoDigits(p);
    DigitsOfDigits(d);
  }

  /** Punctuation between two strings drops out of their digits. */
  lemma DigitsAcrossPunctuation(x: string, p: string, y: string)
    requires NoDigits(p)
    ensures Digits(x + p + y) == Digits(x) + Digits(y)
  {
    DigitsAppend(x + p, y);
    DigitsAppend(x, p);
    DigitsOfNoDigits(p);
    assert Digits(x) + [] == Digits(x);
  }

  lemma PunctuatedTwo(head: string, rest: string)
    requires AllDigits(head) && AllDigits(rest)
    ensures Digits("(" + head + ") " + rest) == head + rest
  {
    var open, close := "(", ") ";
    assert NoDigits(open) && NoDigits(close);
    DigitsAfterPunctuation(open, head);
    DigitsAcrossPunctuation(open + head, close, rest);
    DigitsOfDigits(rest);
  }

  lemma PunctuatedThree(head: string, mid: string, tail: string)
    requires AllDigits(head) && AllDigits(mid) && AllDigits(tail)
    ensures Digits("(" + head + ") " + mid + "-" + tail) == head + mid + tail
  {
    var front := "(" + head + ") " + mid;
    var dash := "-";
    assert NoDigits(dash);
    PunctuatedTwo(head, mid);
    DigitsAcrossPunctuation(front, dash, tail);
    DigitsOfDigits(tail);
  }

  /** Any text laid out from the digits `d` as the phone formatter lays
      them out gives back `d` when the punctuation is removed, and uses the
      phone alphabet only. */
  lemma PhoneLaidOut(r: string, d: string)
    requires AllDigits(d)
    requires |d| <= 3 ==> r == d
    requires 4 <= |d| <= 6 ==> r == "(" + d[..3] + ") " + d[3..]
    requires 7 <= |d| ==> r == "(" + d[..3] + ") " + d[3..6] + "-" + d[6..]
    ensures Digits(r) == d
    ensures PhoneChars(r)
  {
    if |d| <= 3 {
      DigitsOfDigits(d);
    } else if |d| <= 6 {
      var head, rest := d[..3], d[3..];
      PunctuatedTwo(head, rest);
      PunctuatedPhoneChars(head, rest, "");
      assert head + rest == d;
    } else {
      var head, mid, tail := d[..3], d[3..6], d[6..];
      PunctuatedThree(head, mid, tail);
      PunctuatedPhoneChars(head, mid, tail);
      assert head + mid + tail == d;
    }
  }

  /** Removing the punctuation from a formatted phone number gives back
      the first ten digits typed, in order: nothing is invented or
      reordered, and digits beyond the tenth are dropped. */
  lemma PhoneKeepsDigits(raw: string, country: string)
    ensures Digits(FormatPhone(raw, country)) == Take(Digits(raw), 10)
  {
    PhoneLayout(raw, country);
    PhoneLaidOut(FormatPhone(raw, country), Take(Digits(raw), 10));
  }

  lemma PhoneCharsAppend(a: string, b: string)
    requires PhoneChars(a) && PhoneChars(b)
    ensures PhoneChars(a + b)
  {
    forall i | 0 <= i < |a + b|
      ensures IsPhoneChar((a + b)[i])
    {
      if i < |a| {
        assert (a + b)[i] == a[i];
      } else {
        assert (a + b)[i] == b[i - |a|];
      }
    }
  }

  /** The two punctuated layouts, filled with digits, use the phone
      alphabet only. */
  lemma PunctuatedPhoneChars(head: string, mid: string, tail: string)
    requires AllDigits(head) && AllDigits(mid) && AllDigits(tail)
    ensures PhoneChars("(" + head + ") " + mid)
    ensures PhoneChars("(" + head + ") " + mid + "-" + tail)
  {
    assert PhoneChars("(") && PhoneChars(") ") && PhoneChars("-");
    assert PhoneChars(head) && PhoneChars(mid) && PhoneChars(tail);
    PhoneCharsAppend("(", head);
    PhoneCharsAppend("(" + head, ") ");
    PhoneCharsAppend("(" + head + ") ", mid);
    PhoneCharsAppend("(" + head + ") " + mid, "-");
    PhoneCharsAppend("(" + head + ") " + mid + "-", tail);
  }

  /** A formatted phone number holds digits, parentheses, spaces and
      dashes only. */
  lemma PhoneAlphabet(raw: string, country: string)
    ensures PhoneChars(FormatPhone(raw, country))
  {
    PhoneLayout(raw, country);
    PhoneLaidOut(FormatPhone(raw, country), Take(Digits(raw), 10));
  }

  /** The country code never changes the result: the twelve-digit cap for
      countries other than "+1" keeps two more digits, but only the first
      ten are ever laid out. */
  lemma PhoneCountryIrrelevant(raw: string, country: string)
    ensures FormatPhone(raw, country) == FormatPhone(raw, "+1")
  {
    PhoneLayout(raw, country);
    PhoneLayout(raw, "+1");
  }

  // ---------------------------------------------------------------------
  // Card: `1234 5678 9012 3456`
  // ---------------------------------------------------------------------

  /** `digits.match(/.{1,4}/g).join(" ")`: groups of four separated by one
      space, the last group possibly shorter; no match gives "". */
  function Group4(d: string): (r: string)
    decreases |d|
  {
    if |d| <= 4 then d else d[..4] + " " + Group4(d[4..])
  }

  /** A grouped string has one space per full group of four that is
      followed by more digits. */
  lemma {:induction false} Group4Length(d: string)
    ensures |Group4(d)| == if |d| == 0 then 0 else |d| + (|d| - 1) / 4
    decreases |d|
  {
    if |d| > 4 {
      Group4Length(d[4..]);
    }
  }

  /** Every fifth character of a grouped string is a space, and the others
      are the digits, in order. */
  lemma {:induction false} Group4At(d: string, i: nat)
    requires i < |Group4(d)|
    ensures i % 5 == 4 ==> Group4(d)[i] == ' '
    ensures i % 5 != 4 ==> i - i / 5 < |d| && Group4(d)[i] == d[i - i / 5]
    decreases |d|
  {
    if |d| > 4 {
      var g := Group4(d[4..]);
      assert Group4(d) == d[..4] + " " + g;
      if i >= 5 {
        assert Group4(d)[i] == g[i - 5];
        Group4At(d[4..], i - 5);
        ShiftByFive(i);
        assert i % 5 != 4 ==> d[4..][(i - 5) - (i - 5) / 5] == d[i - i / 5];
      }
    }
  }

  lemma ShiftByFive(i: int)
    requires i >= 5
    ensures (i - 5) % 5 == i % 5 && (i - 5) / 5 == i / 5 - 1
  {
  }

  /** Removing the spaces from a grouped string of digits gives the digits
      back. */
  lemma {:induction false} Group4Digits(d: string)
    requires AllDigits(d)
    ensures Digits(Group4(d)) == d
    decreases |d|
  {
    if |d| <= 4 {
      DigitsOfDigits(d);
    } else {
      var head, rest := d[..4], d[4..];
      var g := Group4(rest);
      Group4Digits(rest);
      assert Group4(d) == head + (" " + g);
      DigitsOfDigits(head);
      DigitsOfNoDigits(" ");
      DigitsAppend(head, " " + g);
      DigitsAppend(" ", g);
      assert head + rest == d;
    }
  }

  /** The whole layout of a grouped string of digits. */
  lemma Group4Layout(d: string)
    requires AllDigits(d)
    ensures |Group4(d)| == if |d| == 0 then 0 else |d| + (|d| - 1) / 4
    ensures forall i | 0 <= i < |Group4(d)| ::
      Group4(d)[i] == if i % 5 == 4 then ' ' else d[i - i / 5]
    ensures Digits(Group4(d)) == d
  {
    Group4Length(d);
    forall i | 0 <= i < |Group4(d)|
      ensures Group4(d)[i] == if i % 5 == 4 then ' ' else d[i - i / 5]
    {
      Group4At(d, i);
    }
    Group4Digits(d);
  }

  /** formatCard: keep at most sixteen digits and group them by four. */
  function FormatCard(raw: string): (r: string)
    ensures |r| <= 19
    ensures forall i | 0 <= i < |r| :: r[i] == ' ' <==> i % 5 == 4
    ensures forall i | 0 <= i < |r| :: IsDigit(r[i]) || r[i] == ' '
  {
    var digits := Take(Digits(raw), 16);
    Group4Layout(digits);
    Group4(digits)
  }

  /** Removing the spaces from a formatted card number gives back the
      first sixteen digits typed. */
  lemma CardKeepsDigits(raw: string)
    ensures Digits(FormatCard(raw)) == Take(Digits(raw), 16)
  {
    Group4Layout(Take(Digits(raw), 16));
  }

  /** Formatting an already formatted card number changes nothing. */
  lemma CardIdempotent(raw: string)
    ensures FormatCard(FormatCard(raw)) == FormatCard(raw)
  {
    CardKeepsDigits(raw);
    var d := Take(Digits(raw), 16);
    assert Take(d, 16) == d;
  }

  // ---------------------------------------------------------------------
  // CVC and quantity
  // ---------------------------------------------------------------------

  /** The CVC field: `value.replace(/\D/g, "").slice(0, 4)`. */
  function FilterCvc(raw: string): (cvc: string)
    ensures AllDigits(cvc)
    ensures cvc <= Digits(raw)
    ensures |cvc| == Min(|Digits(raw)|, 4)
  {
    Take(Digits(raw), 4)
  }

  /** Filtering a CVC that was already filtered changes nothing. */
  lemma CvcIdempotent(raw: string)
    ensures FilterCvc(FilterCvc(raw)) == FilterCvc(raw)
  {
    DigitsOfDigits(FilterCvc(raw));
  }

  /** The quantity stepper's minus button: `Math.max(0, quantity - 1)`. */
  function DecrementQuantity(quantity: int): (next: int)
    ensures 0 <= next
    ensures 1 <= quantity ==> next == quantity - 1
    ensures quantity <= 0 ==> next == 0
  {
    Max(0, quantity - 1)
  }

  /** The value of a string of decimal digits. */
  function DecimalValue(d: string): (v: nat)
    requires AllDigits(d)
  {
    if d == [] then 0
    else 10 * DecimalValue(d[..|d| - 1]) + (d[|d| - 1] as int - '0' as int)
  }

  function Pow10(n: nat): (p: nat)
  {
    if n == 0 then 1 else 10 * Pow10(n - 1)
  }

  lemma {:induction false} DecimalValueBound(d: string)
    requires AllDigits(d)
    ensures DecimalValue(d) < Pow10(|d|)
  {
    if d != [] {
      DecimalValueBound(d[..|d| - 1]);
    }
  }

  /** The character of a decimal digit. */
  function DigitChar(k: nat): (c: char)
    requires k < 10
    ensures IsDigit(c)
  {
    ('0' as int + k) as char
  }

  /** `String(n)` for a non-negative integer: its decimal digits, most
      significant first, without leading zeros. */
  function NatToDecimal(n: nat): (s: string)
    ensures AllDigits(s) && |s| >= 1
    ensures |s| > 1 ==> s[0] != '0'
  {
    if n < 10 then [DigitChar(n)] else NatToDecimal(n / 10) + [DigitChar(n % 10)]
  }

  /** Reading back the digits of a number gives the number. */
  lemma {:induction false} DecimalValueOfNatToDecimal(n: nat)
    ensures DecimalValue(NatToDecimal(n)) == n
  {
    var s := NatToDecimal(n);
    if n >= 10 {
      assert s[..|s| - 1] == NatToDecimal(n / 10);
      DecimalValueOfNatToDecimal(n / 10);
    } else {
      assert s[..0] == [];
    }
  }

  /** A leading zero does not change the value of a string of digits. */
  lemma {:induction false} DecimalValueLeadingZero(d: string)
    requires AllDigits(d)
    ensures DecimalValue("0" + d) == DecimalValue(d)
  {
    if d != [] {
      var z := "0" + d;
      assert z[..|z| - 1] == "0" + d[..|d| - 1];
      DecimalValueLeadingZero(d[..|d| - 1]);
    } else {
      assert ("0" + d)[..0] == [];
    }
  }

  /** The quantity field: `Number(value.replace(/\D/g, ""))`, with 0 for
      NaN. A string of digits is never NaN, and the empty string reads as
      0, so the result is the decimal value of the digits typed. */
  function QuantityFromInput(raw: string): (quantity: nat)
    ensures Digits(raw) == "" ==> quantity == 0
    ensures quantity < Pow10(|Digits(raw)|)
  {
    DecimalValueBound(Digits(raw));
    DecimalValue(Digits(raw))
  }

  /** The field shows `String(quantity)`; reading the shown text back
      gives the same quantity, so the field is stable under re-render. */
  lemma QuantityRoundTrip(n: nat)
    ensures QuantityFromInput(NatToDecimal(n)) == n
  {
    DigitsOfDigits(NatToDecimal(n));
    DecimalValueOfNatToDecimal(n);
  }

  /** Typing a zero in front of the quantity, or non-digits anywhere in
      the text, leaves the quantity as it was. */
  lemma QuantityIgnoresLeadingZeroAndNoise(raw: string, before: string, noise: string, after: string)
    requires NoDigits(noise)
    ensures QuantityFromInput("0" + raw) == QuantityFromInput(raw)
    ensures QuantityFromInput(before + noise + after) == QuantityFromInput(before + after)
  {
    DigitsAppend("0", raw);
    assert Digits("0") == "0";
    DecimalValueLeadingZero(Digits(raw));
    DigitsAppend(before + noise, after);
    DigitsAppend(before, noise);
    DigitsOfNoDigits(noise);
    DigitsAppend(before, after);
    assert Digits(before + noise + after) == Digits(before + after);
  }

  // ---------------------------------------------------------------------
  // Currency: `123456789.12`
  // ---------------------------------------------------------------------

  predicate IsCurrencyChar(c: char)
  {
    IsDigit(c) || c == '.'
  }

  /** `raw.replace(/[^\d.]/g, "")`: the digits and dots, in order. */
  function KeepCurrencyChars(s: string): (t: string)
    ensures forall i | 0 <= i < |t| :: IsCurrencyChar(t[i])
    ensures |t| <= |s|
  {
    if s == [] then []
    else (if IsCurrencyChar(s[0]) then [s[0]] else []) + KeepCurrencyChars(s[1..])
  }

  /** Keeping the currency characters distributes over concatenation. */
  lemma {:induction false} KeepCurrencyCharsAppend(a: string, b: string)
    ensures KeepCurrencyChars(a + b) == KeepCurrencyChars(a) + KeepCurrencyChars(b)
  {
    if a != [] {
      var first := if IsCurrencyChar(a[0]) then [a[0]] else [];
      assert (a + b)[0] == a[0];
      assert (a + b)[1..] == a[1..] + b;
      KeepCurrencyCharsAppend(a[1..], b);
      assert KeepCurrencyChars(a + b) == first + (KeepCurrencyChars(a[1..]) + KeepCurrencyChars(b));
    } else {
      assert a + b == b;
    }
  }

  /** A string without digits or dots vanishes. */
  lemma {:induction false} KeepCurrencyCharsOfNone(s: string)
    requires forall i | 0 <= i < |s| :: !IsCurrencyChar(s[i])
    ensures KeepCurrencyChars(s) == ""
  {
    if s != [] {
      KeepCurrencyCharsOfNone(s[1..]);
    }
  }

  /** A string of digits and dots is kept whole. */
  lemma {:induction false} KeepCurrencyCharsOfClean(s: string)
    requires forall i | 0 <= i < |s| :: IsCurrencyChar(s[i])
    ensures KeepCurrencyChars(s) == s
  {
    if s != [] {
      KeepCurrencyCharsOfClean(s[1..]);
    }
  }

  /** `s.split(".")`: the pieces between the dots; there is always at
      least one, and none holds a dot. */
  function SplitDots(s: string): (pieces: seq<string>)
    ensures |pieces| >= 1
    ensures forall k | 0 <= k < |pieces| :: '.' !in pieces[k]
  {
    if s == [] then [""]
    else
      var rest := SplitDots(s[1..]);
      if s[0] == '.' then [""] + rest
      else [[s[0]] + rest[0]] + rest[1..]
  }

  /** `pieces.join(".")`. */
  function JoinDots(pieces: seq<string>): (s: string)
    requires |pieces| >= 1
  {
    if |pieces| == 1 then pieces[0] else pieces[0] + "." + JoinDots(pieces[1..])
  }

  /** Splitting at the dots loses nothing: joining the pieces with dots
      gives back the string. */
  lemma {:induction false} JoinSplitDots(s: string)
    ensures JoinDots(SplitDots(s)) == s
  {
    if s != [] {
      JoinSplitDots(s[1..]);
      var rest := SplitDots(s[1..]);
      if s[0] == '.' {
        assert SplitDots(s) == [""] + rest;
        assert ([""] + rest)[1..] == rest;
      } else {
        var ps := SplitDots(s);
        assert ps == [[s[0]] + rest[0]] + rest[1..];
        if |rest| == 1 {
          assert JoinDots(ps) == [s[0]] + rest[0];
        } else {
          assert ps[1..] == rest[1..];
          assert JoinDots(rest) == rest[0] + "." + JoinDots(rest[1..]);
        }
      }
    }
  }

  lemma {:induction false} SplitDotFree(a: string)
    requires '.' !in a
    ensures SplitDots(a) == [a]
  {
    if a != [] {
      assert a[0] != '.' && '.' !in a[1..];
      SplitDotFree(a[1..]);
      assert [a[0]] + a[1..] == a;
    }
  }

  lemma {:induction false} SplitAfterPiece(a: string, b: string)
    requires '.' !in a
    ensures SplitDots(a + "." + b) == [a] + SplitDots(b)
  {
    if a == [] {
      assert a + "." + b == "." + b;
      assert ("." + b)[1..] == b;
    } else {
      assert (a + "." + b)[1..] == a[1..] + "." + b;
      SplitAfterPiece(a[1..], b);
      assert [a[0]] + a[1..] == a;
    }
  }

  /** The whole part of a currency input: the first dot-separated piece,
      cut to nine characters. */
  function WholePart(cleaned: string): (whole: string)
  {
    Take(SplitDots(cleaned)[0], 9)
  }

  /** The fraction: the second piece (or "" when there is no dot), cut to
      two characters; later pieces are ignored. */
  function FractionPart(cleaned: string): (fraction: string)
  {
    var pieces := SplitDots(cleaned);
    Take(if |pieces| >= 2 then pieces[1] else "", 2)
  }

  /** formatCurrency: keep digits and dots, then `whole.fraction` with the
      dot only when the fraction is non-empty. */
  function FormatCurrency(raw: string): (r: string)
    ensures |r| <= 12
    ensures forall i | 0 <= i < |r| :: IsCurrencyChar(r[i])
    ensures forall i, j | 0 <= i < j < |r| :: !(r[i] == '.' && r[j] == '.')
    ensures forall i | 0 <= i < |r| && r[i] == '.' :: i <= 9 && 1 <= |r| - 1 - i <= 2
  {
    var cleaned := KeepCurrencyChars(raw);
    var safeWhole := WholePart(cleaned);
    var safeFraction := FractionPart(cleaned);
    CurrencyPartsAreDigits(cleaned);
    if |safeFraction| > 0 then safeWhole + "." + safeFraction else safeWhole
  }

  /** Both parts of a cleaned currency input are strings of digits. */
  lemma CurrencyPartsAreDigits(cleaned: string)
    requires forall i | 0 <= i < |cleaned| :: IsCurrencyChar(cleaned[i])
    ensures AllDigits(WholePart(cleaned)) && |WholePart(cleaned)| <= 9
    ensures AllDigits(FractionPart(cleaned)) && |FractionPart(cleaned)| <= 2
  {
    var pieces := SplitDots(cleaned);
    JoinSplitDots(cleaned);
    forall k | 0 <= k < |pieces|
      ensures AllDigits(pieces[k])
    {
      PieceIsSubstring(pieces, k);
    }
  }

  /** Every character of a piece occurs in the joined string. */
  lemma {:induction false} PieceIsSubstring(pieces: seq<string>, k: nat)
    requires k < |pieces|
    requires forall i | 0 <= i < |JoinDots(pieces)| :: IsCurrencyChar(JoinDots(pieces)[i])
    requires '.' !in pieces[k]
    ensures AllDigits(pieces[k])
  {
    var j := JoinDots(pieces);
    if |pieces| > 1 {
      assert j == pieces[0] + ("." + JoinDots(pieces[1..]));
      if k == 0 {
        forall i | 0 <= i < |pieces[0]| ensures IsDigit(pieces[0][i]) {
          assert j[i] == pieces[0][i];
        }
      } else {
        var tail := JoinDots(pieces[1..]);
        forall i | 0 <= i < |tail| ensures IsCurrencyChar(tail[i]) {
          assert j[|pieces[0]| + 1 + i] == tail[i];
        }
        assert pieces[1..][k - 1] == pieces[k];
        PieceIsSubstring(pieces[1..], k - 1);
      }
    } else {
      assert j == pieces[0];
    }
  }

  /** The formatted amount carries a dot exactly when something follows
      the first dot typed before any second one. */
  lemma CurrencyLayout(raw: string)
    ensures var cleaned := KeepCurrencyChars(raw);
      var r := FormatCurrency(raw);
      '.' in r <==> FractionPart(cleaned) != ""
  {
    CurrencyPartsAreDigits(KeepCurrencyChars(raw));
  }

  /** An amount typed as digits only keeps its first nine digits and gets
      no dot. */
  lemma CurrencyOfDigits(raw: string)
    requires AllDigits(raw)
    ensures FormatCurrency(raw) == Take(raw, 9)
  {
    KeepCurrencyCharsOfClean(raw);
    assert '.' !in raw;
    SplitDotFree(raw);
    assert FractionPart(raw) == "";
  }

  /** Formatting an already formatted amount changes nothing. */
  lemma CurrencyIdempotent(raw: string)
    ensures FormatCurrency(FormatCurrency(raw)) == FormatCurrency(raw)
  {
    var cleaned := KeepCurrencyChars(raw);
    var whole, fraction := WholePart(cleaned), FractionPart(cleaned);
    CurrencyPartsAreDigits(cleaned);
    var r := FormatCurrency(raw);
    KeepCurrencyCharsOfClean(r);
    assert '.' !in whole;
    if fraction == "" {
      assert r == whole;
      SplitDotFree(whole);
    } else {
      assert r == whole + "." + fraction;
      assert '.' !in fraction;
      SplitAfterPiece(whole, fraction);
      SplitDotFree(fraction);
    }
  }
}
