/**
 * Text formatting shared by the address and account-id renderings:
 * lowercase digits in base 10 or 16 (Rust's `{}` and `{:x}` on unsigned
 * integers), and `join`/`split` over a one-character separator.
 */
module Text {

  predicate IsBase(base: nat) {
    base == 10 || base == 16
  }

  /** The digit character for `d`: '0'..'9', then lowercase 'a'..'f'. */
  function Digit(d: nat): (c: char)
    requires d < 16
    ensures IsDigit(c, 16) && DigitValue(c) == d
  {
    if d < 10 then (48 + d) as char else (87 + d) as char
  }

  /** Whether `c` is a digit of `base`; letters only in base 16 and only lowercase. */
  predicate IsDigit(c: char, base: nat) {
    ('0' <= c <= '9' && (c as int) - 48 < base) || (base == 16 && 'a' <= c <= 'f')
  }

  /** The value of a digit character, or 0 for a character that is not one. */
  function DigitValue(c: char): (d: nat)
    ensures d < 16
  {
    if '0' <= c <= '9' then (c as int) - 48
    else if 'a' <= c <= 'f' then (c as int) - 87
    else 0
  }

  /** Every digit character is the rendering of its value. */
  lemma DigitOfValue(c: char, base: nat)
    requires IsDigit(c, base)
    ensures DigitValue(c) < base && Digit(DigitValue(c)) == c
  {
  }

  predicate AllDigits(s: string, base: nat) {
    forall i :: 0 <= i < |s| ==> IsDigit(s[i], base)
  }

  /** The shortest rendering of `n` in `base`: "0" for zero, otherwise no leading zero. */
  function Numeral(n: nat, base: nat): (s: string)
    requires IsBase(base)
    decreases n
  {
    if n < base then [Digit(n)] else Numeral(n / base, base) + [Digit(n % base)]
  }

  /** The value a string of digits denotes, most significant digit first. */
  function NumeralValue(s: string, base: nat): nat
    requires IsBase(base)
    decreases |s|
  {
    if s == [] then 0 else NumeralValue(s[..|s| - 1], base) * base + DigitValue(s[|s| - 1])
  }

  /** A digit string with no redundant leading zero: what `Numeral` produces. */
  predicate Canonical(s: string, base: nat) {
    |s| >= 1 && AllDigits(s, base) && (|s| == 1 || s[0] != '0')
  }

  lemma DivModBase(q: nat, d: nat, base: nat)
    requires IsBase(base) && d < base
    ensures (q * base + d) / base == q && (q * base + d) % base == d
  {
  }

  /** `Numeral` is canonical and denotes `n`. */
  lemma {:induction false} NumeralCorrect(n: nat, base: nat)
    requires IsBase(base)
    ensures Canonical(Numeral(n, base), base)
    ensures NumeralValue(Numeral(n, base), base) == n
    decreases n
  {
    var s := Numeral(n, base);
    if n >= base {
      var q, d := n / base, n % base;
      NumeralCorrect(q, base);
      assert s[..|s| - 1] == Numeral(q, base);
      assert n == q * base + d;
      forall i | 0 <= i < |s| ensures IsDigit(s[i], base) {
        if i < |s| - 1 {
          assert s[i] == Numeral(q, base)[i];
        }
      }
      assert s[0] == Numeral(q, base)[0];
      assert Numeral(q, base)[0] != '0' by {
        if |Numeral(q, base)| == 1 {
          assert Numeral(q, base) == [Digit(q)];
        }
      }
    }
  }

  /** A canonical digit string with more than one digit denotes at least `base`. */
  lemma {:induction false} CanonicalValueLarge(s: string, base: nat)
    requires IsBase(base) && Canonical(s, base) && |s| >= 2
    ensures NumeralValue(s, base) >= base
  {
    LeadingNonZero(s[..|s| - 1], base);
  }

  lemma {:induction false} LeadingNonZero(s: string, base: nat)
    requires IsBase(base) && |s| >= 1 && AllDigits(s, base) && s[0] != '0'
    ensures NumeralValue(s, base) >= 1
    decreases |s|
  {
    var init := s[..|s| - 1];
    if |s| >= 2 {
      assert init[0] == s[0];
      LeadingNonZero(init, base);
    } else {
      assert s == [s[0]];
      assert init == [];
    }
  }

  /** Only one canonical string denotes a value: `Numeral` is the inverse of `NumeralValue`. */
  lemma {:induction false} CanonicalUnique(s: string, base: nat)
    requires IsBase(base) && Canonical(s, base)
    ensures Numeral(NumeralValue(s, base), base) == s
    decreases |s|
  {
    var init, last := s[..|s| - 1], s[|s| - 1];
    var v, d := NumeralValue(init, base), DigitValue(last);
    assert IsDigit(last, base);
    DigitOfValue(last, base);
    if |s| == 1 {
      assert init == [];
      assert s == [last];
    } else {
      assert init[0] == s[0];
      assert Canonical(init, base);
      CanonicalUnique(init, base);
      CanonicalValueLarge(s, base);
      DivModBase(v, d, base);
      assert s == init + [last];
    }
  }

  /** `Numeral` is injective: distinct values never render alike. */
  lemma NumeralInjective(m: nat, n: nat, base: nat)
    requires IsBase(base) && Numeral(m, base) == Numeral(n, base)
    ensures m == n
  {
    NumeralCorrect(m, base);
    NumeralCorrect(n, base);
  }

  /** Rust's `join`: the parts with `sep` between consecutive ones. */
  function Join(parts: seq<string>, sep: char): string
    decreases |parts|
  {
    if |parts| == 0 then ""
    else if |parts| == 1 then parts[0]
    else parts[0] + [sep] + Join(parts[1..], sep)
  }

  /** Specification helper: the maximal runs between occurrences of `sep`, used to read a joined text back. */
  function Split(s: string, sep: char): (fields: seq<string>)
    ensures |fields| >= 1
    decreases |s|
  {
    if |s| == 0 then [""]
    else
      var rest := Split(s[1..], sep);
      if s[0] == sep then [""] + rest else [[s[0]] + rest[0]] + rest[1..]
  }

  lemma {:induction false} SplitPlain(p: string, sep: char, t: string)
    requires sep !in p
    ensures Split(p + t, sep) == [p + Split(t, sep)[0]] + Split(t, sep)[1..]
    decreases |p|
  {
    if |p| > 0 {
      assert (p + t)[1..] == p[1..] + t;
      assert (p + t)[0] == p[0];
      SplitPlain(p[1..], sep, t);
      assert [p[0]] + (p[1..] + Split(t, sep)[0]) == p + Split(t, sep)[0];
    } else {
      assert p + t == t;
      assert p + Split(t, sep)[0] == Split(t, sep)[0];
      assert Split(t, sep) == [Split(t, sep)[0]] + Split(t, sep)[1..];
    }
  }

  /** `Split` undoes `Join` when no part contains the separator. */
  lemma {:induction false} SplitJoin(parts: seq<string>, sep: char)
    requires |parts| >= 1
    requires forall i :: 0 <= i < |parts| ==> sep !in parts[i]
    ensures Split(Join(parts, sep), sep) == parts
    decreases |parts|
  {
    if |parts| == 1 {
      SplitPlain(parts[0], sep, "");
      assert parts[0] + "" == parts[0];
      assert Split("", sep) == [""];
      assert parts == [parts[0] + Split("", sep)[0]] + Split("", sep)[1..];
    } else {
      var rest := Join(parts[1..], sep);
      SplitJoin(parts[1..], sep);
      SplitPlain(parts[0], sep, [sep] + rest);
      assert parts[0] + [sep] + rest == parts[0] + ([sep] + rest);
      assert ([sep] + rest)[1..] == rest;
      assert Split([sep] + rest, sep) == [""] + parts[1..];
      assert parts[0] + "" == parts[0];
      assert parts == [parts[0]] + parts[1..];
    }
  }

  /** Joining parts that are all non-empty never puts two separators side by side. */
  lemma {:induction false} JoinNoDoubleSep(parts: seq<string>, sep: char, i: nat)
    requires forall k :: 0 <= k < |parts| ==> |parts[k]| >= 1 && sep !in parts[k]
    requires i + 1 < |Join(parts, sep)|
    ensures !(Join(parts, sep)[i] == sep && Join(parts, sep)[i + 1] == sep)
    decreases |parts|
  {
    if |parts| >= 2 {
      var p, rest := parts[0], Join(parts[1..], sep);
      var j := Join(parts, sep);
      assert j == p + [sep] + rest;
      if i + 1 < |p| {
        assert j[i] == p[i];
      } else if i + 1 == |p| {
        assert j[i] == p[i];
      } else if i == |p| {
        assert j[i + 1] == rest[0] == parts[1][0];
        assert rest[0] in parts[1];
      } else {
        assert j[i] == rest[i - |p| - 1] && j[i + 1] == rest[i - |p|];
        JoinNoDoubleSep(parts[1..], sep, i - |p| - 1);
      }
    } else if |parts| == 1 {
      assert Join(parts, sep)[i] == parts[0][i];
    }
  }
}
