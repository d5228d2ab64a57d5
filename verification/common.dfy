/** Small vocabulary shared by the formatters, the module gate and the
    inline-editor controller: an Option type and the JavaScript string
    operations the source uses on ASCII digits. */
module Common {

  datatype Option<T> = None | Some(value: T)

  /** The set of values an Option holds: empty or a singleton. */
  function OptionSet<T>(o: Option<T>): (r: set<T>)
  {
    if o.Some? then {o.value} else {}
  }

  function Min(a: int, b: int): (r: int) { if a <= b then a else b }

  function Max(a: int, b: int): (r: int) { if a >= b then a else b }

  /** The regular-expression class `\d`: ASCII digits only. */
  predicate IsDigit(c: char)
  {
    '0' <= c <= '9'
  }

  predicate AllDigits(s: string)
  {
    forall i | 0 <= i < |s| :: IsDigit(s[i])
  }

  predicate NoDigits(s: string)
  {
    forall i | 0 <= i < |s| :: !IsDigit(s[i])
  }

  /** `s.slice(0, n)` for a non-negative `n`: the first `n` characters,
      or all of them when there are fewer. */
  function Take(s: string, n: nat): (t: string)
    ensures |t| == Min(|s|, n)
    ensures t <= s
  {
    if |s| <= n then s else s[..n]
  }

  /** `s.slice(i, j)` for `0 <= i <= j`: both bounds are clamped to the
      length of `s`. */
  function Slice(s: string, i: nat, j: nat): (t: string)
    requires i <= j
    ensures |t| == Min(|s|, j) - Min(|s|, i)
    ensures Take(s, i) + t == Take(s, j)
  {
    s[Min(|s|, i)..Min(|s|, j)]
  }

  /** `s.replace(/\D/g, "")`: the digits of `s`, in order. */
  function Digits(s: string): (d: string)
    ensures AllDigits(d)
    ensures |d| <= |s|
  {
    if s == [] then []
    else (if IsDigit(s[0]) then [s[0]] else []) + Digits(s[1..])
  }

  /** Removing the non-digits distributes over concatenation. */
  lemma {:induction false} DigitsAppend(a: string, b: string)
    ensures Digits(a + b) == Digits(a) + Digits(b)
  {
    if a != [] {
      var first := if IsDigit(a[0]) then [a[0]] else [];
      assert (a + b)[0] == a[0];
      assert (a + b)[1..] == a[1..] + b;
      DigitsAppend(a[1..], b);
      calc {
        Digits(a + b);
        first + Digits(a[1..] + b);
        first + (Digits(a[1..]) + Digits(b));
        (first + Digits(a[1..])) + Digits(b);
        Digits(a) + Digits(b);
      }
    } else {
      assert a + b == b;
    }
  }

  /** A string of digits loses nothing. */
  lemma {:induction false} DigitsOfDigits(s: string)
    requires AllDigits(s)
    ensures Digits(s) == s
  {
    if s != [] {
      DigitsOfDigits(s[1..]);
    }
  }

  /** A string without digits vanishes. */
  lemma {:induction false} DigitsOfNoDigits(s: string)
    requires NoDigits(s)
    ensures Digits(s) == ""
  {
    if s != [] {
      DigitsOfNoDigits(s[1..]);
    }
  }
}
