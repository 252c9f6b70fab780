/**
  Tile ids. Every tile carries the id `x_y`, its two coordinates written in
  decimal and joined by an underscore; the cascade's worklist holds these ids
  and turns each one back into coordinates by splitting at the underscores
  and reading both parts as integers. The round trip below shows that the
  worklist may as well hold the positions themselves, which is what the
  cascade model does.
 */
module TileIds {
  import opened Geometry

  datatype Option<T> = None | Some(value: T)

  predicate IsDigit(c: char) {
    '0' <= c <= '9'
  }

  predicate AllDigits(s: string) {
    forall i :: 0 <= i < |s| ==> IsDigit(s[i])
  }

  function DigitChar(d: nat): (c: char)
    requires d < 10
    ensures IsDigit(c)
  {
    "0123456789"[d]
  }

  function DigitValue(c: char): (d: nat)
    requires IsDigit(c)
    ensures d < 10
  {
    (c as int - '0' as int) as nat
  }

  lemma DigitRoundTrip(d: nat)
    requires d < 10
    ensures DigitValue(DigitChar(d)) == d
  {
  }

  /** The decimal numeral of n, as `str` writes a non-negative integer. */
  function Decimal(n: nat): (s: string)
    ensures |s| >= 1 && AllDigits(s)
    decreases n
  {
    if n < 10 then [DigitChar(n)] else Decimal(n / 10) + [DigitChar(n % 10)]
  }

  /** The value of a string of decimal digits. */
  function DigitsValue(s: string): nat
    requires AllDigits(s)
  {
    if s == [] then 0 else DigitsValue(s[..|s| - 1]) * 10 + DigitValue(s[|s| - 1])
  }

  /** A numeral without superfluous leading zeros, as `str` writes them. */
  predicate Canonical(s: string) {
    |s| == 1 || (|s| > 1 && s[0] != '0')
  }

  /** `int` applied to a string: the value of a non-empty string of digits,
      and an error otherwise. A numeral that `str` could have written reads
      back to a number that `str` writes the same way. */
  function ParseNat(s: string): (r: Option<nat>)
    ensures r.Some? <==> s != [] && AllDigits(s)
    ensures r.Some? && Canonical(s) ==> Decimal(r.value) == s
  {
    if s != [] && AllDigits(s) then
      if Canonical(s) then DigitsRoundTrip(s); Some(DigitsValue(s))
      else Some(DigitsValue(s))
    else None
  }

  /** A numeral whose first digit is not zero stands for a positive number. */
  lemma {:induction false} LeadingDigitPositive(s: string)
    requires AllDigits(s) && s != [] && s[0] != '0'
    ensures DigitsValue(s) >= 1
    decreases |s|
  {
    if |s| > 1 {
      var init := s[..|s| - 1];
      assert init[0] == s[0];
      LeadingDigitPositive(init);
    }
  }

  /** Printing the value of a canonical numeral gives the numeral back. */
  lemma {:induction false} DigitsRoundTrip(s: string)
    requires AllDigits(s) && Canonical(s)
    ensures Decimal(DigitsValue(s)) == s
    decreases |s|
  {
    var c := s[|s| - 1];
    var d := DigitValue(c);
    assert DigitChar(d) == c;
    var init := s[..|s| - 1];
    if |s| == 1 {
      assert init == [];
      assert s == [c];
    } else {
      assert init[0] == s[0];
      LeadingDigitPositive(init);
      DigitsRoundTrip(init);
      var n := DigitsValue(s);
      assert n == DigitsValue(init) * 10 + d;
      assert n / 10 == DigitsValue(init) && n % 10 == d;
      assert s == init + [c];
    }
  }

  /** `str` never writes a superfluous leading zero. */
  lemma {:induction false} DecimalCanonical(n: nat)
    ensures Canonical(Decimal(n))
    decreases n
  {
    if n >= 10 {
      DecimalCanonical(n / 10);
      assert Decimal(n)[0] == Decimal(n / 10)[0];
    }
  }

  /** Reading back what `str` wrote gives the number written. */
  lemma ParseDecimal(n: nat)
    ensures ParseNat(Decimal(n)) == Some(n)
  {
    DecimalRoundTrip(n);
  }

  lemma {:induction false} DecimalRoundTrip(n: nat)
    ensures DigitsValue(Decimal(n)) == n
    decreases n
  {
    var s := Decimal(n);
    if n < 10 {
      DigitRoundTrip(n);
      assert s[..|s| - 1] == [];
    } else {
      DecimalRoundTrip(n / 10);
      DigitRoundTrip(n % 10);
      assert s[..|s| - 1] == Decimal(n / 10);
    }
  }

  /** `s.split(sep)`: the pieces of s between the occurrences of sep, always
      one more than there are occurrences. */
  function Split(s: string, sep: char): (r: seq<string>)
    ensures |r| >= 1
    ensures forall i :: 0 <= i < |r| ==> sep !in r[i]
  {
    if s == [] then [""]
    else
      var rest := Split(s[1..], sep);
      if s[0] == sep then [""] + rest
      else [[s[0]] + rest[0]] + rest[1..]
  }

  /** `sep.join(parts)`. */
  function Join(parts: seq<string>, sep: char): string
    requires |parts| >= 1
  {
    if |parts| == 1 then parts[0] else parts[0] + [sep] + Join(parts[1..], sep)
  }

  /** Joining the pieces again gives back the split string. */
  lemma {:induction false} JoinSplit(s: string, sep: char)
    ensures Join(Split(s, sep), sep) == s
  {
    if s != [] {
      JoinSplit(s[1..], sep);
      var rest := Split(s[1..], sep);
      if s[0] == sep {
        assert Split(s, sep) == [""] + rest;
        assert ([""] + rest)[1..] == rest;
      } else {
        var r := Split(s, sep);
        assert r == [[s[0]] + rest[0]] + rest[1..];
        if |rest| == 1 {
          assert s == [s[0]] + s[1..];
        } else {
          assert r[1..] == rest[1..];
          assert Join(rest, sep) == rest[0] + [sep] + Join(rest[1..], sep);
          assert s == [s[0]] + s[1..];
        }
      }
    }
  }

  /** A string with no separator splits into itself. */
  lemma {:induction false} SplitWithoutSeparator(s: string, sep: char)
    requires sep !in s
    ensures Split(s, sep) == [s]
  {
    if s != [] {
      assert sep !in s[1..] by {
        forall i | 0 <= i < |s[1..]|
          ensures s[1..][i] != sep
        {
          assert s[1..][i] == s[i + 1];
        }
      }
      SplitWithoutSeparator(s[1..], sep);
      assert [s[0]] + s[1..] == s;
    }
  }

  /** Two separator-free pieces joined by the separator split back into
      those two pieces. */
  lemma {:induction false} SplitTwo(a: string, b: string, sep: char)
    requires sep !in a && sep !in b
    ensures Split(a + [sep] + b, sep) == [a, b]
  {
    var s := a + [sep] + b;
    if a == [] {
      assert s[1..] == b;
      SplitWithoutSeparator(b, sep);
    } else {
      assert s[1..] == a[1..] + [sep] + b;
      assert sep !in a[1..] by {
        forall i | 0 <= i < |a[1..]|
          ensures a[1..][i] != sep
        {
          assert a[1..][i] == a[i + 1];
        }
      }
      SplitTwo(a[1..], b, sep);
      assert [a[0]] + a[1..] == a;
    }
  }

  lemma DigitsHaveNoUnderscore(s: string)
    requires AllDigits(s)
    ensures '_' !in s
  {
  }

  /** The id of the tile at p. The board only has tiles at non-negative
      coordinates. */
  function Id(p: Pos): string
    requires p.x >= 0 && p.y >= 0
  {
    Decimal(p.x) + "_" + Decimal(p.y)
  }

  /** Reads the coordinates back from an id: the first two pieces between
      underscores, each as an integer. Too few pieces (an index error) or a
      piece that is not a number (a value error) gives None; pieces after
      the second are ignored. */
  function KeyPos(key: string): (r: Option<Pos>)
    ensures r.Some? ==> r.value.x >= 0 && r.value.y >= 0
  {
    var parts := Split(key, '_');
    if |parts| < 2 then None
    else
      match (ParseNat(parts[0]), ParseNat(parts[1]))
      case (Some(x), Some(y)) => Some(Pos(x, y))
      case _ => None
  }

  /** Reading an id gives back the tile's coordinates. */
  lemma IdRoundTrip(p: Pos)
    requires p.x >= 0 && p.y >= 0
    ensures KeyPos(Id(p)) == Some(p)
  {
    DigitsHaveNoUnderscore(Decimal(p.x));
    DigitsHaveNoUnderscore(Decimal(p.y));
    SplitTwo(Decimal(p.x), Decimal(p.y), '_');
    DecimalRoundTrip(p.x);
    DecimalRoundTrip(p.y);
  }

  /** Distinct tiles have distinct ids, so a worklist of ids and a worklist
      of positions hold the same cells. */
  lemma IdsDistinct(p: Pos, q: Pos)
    requires p.x >= 0 && p.y >= 0 && q.x >= 0 && q.y >= 0
    ensures Id(p) == Id(q) <==> p == q
  {
    if Id(p) == Id(q) {
      IdRoundTrip(p);
      IdRoundTrip(q);
    }
  }
}
