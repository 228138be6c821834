/**
 * The English number-word resolver of the DevPerc interpreter (numbers.c).
 *
 * A number word is an unspaced, upper-case concatenation such as "TWENTYONE"
 * or "ONEHUNDREDANDTEN". The resolver dispatches on the exact length of the
 * span, compares it byte by byte against fixed words, and for the compound
 * forms matches a fixed prefix and resolves the remainder recursively by the
 * next smaller grammar. It answers -1 when the span is not a number word.
 *
 * The model keeps two oddities of the code as written: compounds that start
 * with FIFTY use the base 40, and compounds eight bytes long (FORTYONE, ...)
 * are caught by the length-8 teen case and rejected.
 */
module Numbers {

  /** One C `char` of program text: a character whose code fits in a byte. */
  type Byte = c: char | c as int < 256

  /*************************************************************************
   * The resolver, as numbers.c computes it
   *************************************************************************/

  /** `try_parse_english_number_units`: ONE .. NINE, at their exact length only. */
  function ParseUnits(w: seq<Byte>): (r: int)
    ensures r == -1 || 1 <= r <= 9
  {
    if |w| == 3 then
      if w == "ONE" then 1 else if w == "TWO" then 2 else if w == "SIX" then 6 else -1
    else if |w| == 4 then
      if w == "FOUR" then 4 else if w == "FIVE" then 5 else if w == "NINE" then 9 else -1
    else if |w| == 5 then
      if w == "THREE" then 3 else if w == "SEVEN" then 7 else if w == "EIGHT" then 8 else -1
    else
      -1
  }

  /** `try_parse_english_number_tens`: TWENTY .. NINETY, at their exact length only. */
  function ParseTens(w: seq<Byte>): (r: int)
    ensures r == -1 || r in {20, 30, 40, 50, 60, 70, 80, 90}
  {
    if |w| == 5 then
      if w == "FORTY" then 40 else if w == "FIFTY" then 50 else if w == "SIXTY" then 60 else -1
    else if |w| == 6 then
      if w == "TWENTY" then 20 else if w == "THIRTY" then 30
      else if w == "EIGHTY" then 80 else if w == "NINETY" then 90 else -1
    else if |w| == 7 then
      if w == "SEVENTY" then 70 else -1
    else
      -1
  }

  /**
   * The condition of the `MATCH_PREFIX` macro: `w` starts with `prefix` and
   * leaves a remainder of at least three bytes (the length of "ONE").
   */
  predicate MatchesPrefix(w: seq<Byte>, prefix: seq<Byte>)
  {
    |w| >= |prefix| + 3 && w[..|prefix|] == prefix
  }

  /**
   * `MATCH_PREFIX_AND_TRY_SUFFIX(prefix, base, units)`: the value `base + u`
   * when `w` is `prefix` followed by a unit word of value `u`, and -1 (the
   * macro falls through) otherwise.
   */
  function PrefixThenUnits(w: seq<Byte>, prefix: seq<Byte>, base: int): int
  {
    if MatchesPrefix(w, prefix) && ParseUnits(w[|prefix|..]) >= 0 then
      base + ParseUnits(w[|prefix|..])
    else
      -1
  }

  /**
   * `try_parse_english_number_tens_and_units`: units first, then round tens,
   * then the teens by length, and only for the remaining lengths the
   * compounds, tried prefix by prefix in the order of the source.
   */
  function ParseTensAndUnits(w: seq<Byte>): (r: int)
    ensures r == -1 || 1 <= r <= 99
  {
    var units := ParseUnits(w);
    if units >= 0 then units
    else
      var tens := ParseTens(w);
      if tens >= 0 then tens
      else if |w| == 3 then
        if w == "TEN" then 10 else -1
      else if |w| == 6 then
        if w == "ELEVEN" then 11 else if w == "TWELVE" then 12 else -1
      else if |w| == 7 then
        if w == "FIFTEEN" then 15 else if w == "SIXTEEN" then 16 else -1
      else if |w| == 8 then
        if w == "THIRTEEN" then 13 else if w == "FOURTEEN" then 14
        else if w == "EIGHTEEN" then 18 else if w == "NINETEEN" then 19 else -1
      else
        ParseCompound(w)
  }

  /**
   * The `default` case of `try_parse_english_number_tens_and_units`: the
   * compound prefixes tried in the order of the source, each falling through
   * to the next when its remainder is not a unit word.
   */
  function ParseCompound(w: seq<Byte>): (r: int)
    ensures r == -1 || 21 <= r <= 99
  {
    var twenty := PrefixThenUnits(w, "TWENTY", 20);
    if twenty >= 0 then twenty else
    var thirty := PrefixThenUnits(w, "THIRTY", 30);
    if thirty >= 0 then thirty else
    var forty := PrefixThenUnits(w, "FORTY", 40);
    if forty >= 0 then forty else
    var fifty := PrefixThenUnits(w, "FIFTY", 40);  // base 40, as written in the source
    if fifty >= 0 then fifty else
    var sixty := PrefixThenUnits(w, "SIXTY", 60);
    if sixty >= 0 then sixty else
    var seventy := PrefixThenUnits(w, "SEVENTY", 70);
    if seventy >= 0 then seventy else
    var eighty := PrefixThenUnits(w, "EIGHTY", 80);
    if eighty >= 0 then eighty else
    var ninety := PrefixThenUnits(w, "NINETY", 90);
    if ninety >= 0 then ninety else -1
  }

  /**
   * `try_parse_english_number`: ZERO, ONEHUNDRED and TWOHUNDRED at their
   * exact length, then ONEHUNDREDAND<w>, then TWOHUNDREDAND<w> as long as
   * the sum stays within a byte, and otherwise the whole span as a
   * tens-and-units word. The result is -1 or a byte value.
   */
  function ParseEnglishNumber(w: seq<Byte>): (r: int)
    ensures r == -1 || 0 <= r <= 255
  {
    if w == "ZERO" then 0
    else if w == "ONEHUNDRED" then 100
    else if w == "TWOHUNDRED" then 200
    else
      var oneHundredAnd :=
        if MatchesPrefix(w, "ONEHUNDREDAND") && ParseTensAndUnits(w[13..]) >= 0
        then 100 + ParseTensAndUnits(w[13..]) else -1;
      if oneHundredAnd >= 0 then oneHundredAnd
      else
        var twoHundredAnd :=
          if MatchesPrefix(w, "TWOHUNDREDAND") && ParseTensAndUnits(w[13..]) >= 0
             && 200 + ParseTensAndUnits(w[13..]) <= 255
          then 200 + ParseTensAndUnits(w[13..]) else -1;
        if twoHundredAnd >= 0 then twoHundredAnd
        else
          var result := ParseTensAndUnits(w);
          if result >= 0 then result else -1
  }

  /*************************************************************************
   * The grammar the resolver is meant to accept: canonical spellings
   *************************************************************************/

  /** The word for the digit `d`. */
  function UnitWord(d: int): seq<Byte>
    requires 1 <= d <= 9
  {
    match d
    case 1 => "ONE"
    case 2 => "TWO"
    case 3 => "THREE"
    case 4 => "FOUR"
    case 5 => "FIVE"
    case 6 => "SIX"
    case 7 => "SEVEN"
    case 8 => "EIGHT"
    case _ => "NINE"
  }

  /** The word for `10 * t`. */
  function TensWord(t: int): seq<Byte>
    requires 2 <= t <= 9
  {
    match t
    case 2 => "TWENTY"
    case 3 => "THIRTY"
    case 4 => "FORTY"
    case 5 => "FIFTY"
    case 6 => "SIXTY"
    case 7 => "SEVENTY"
    case 8 => "EIGHTY"
    case _ => "NINETY"
  }

  /** The word for a number from 10 to 19. */
  function TeenWord(n: int): seq<Byte>
    requires 10 <= n <= 19
  {
    match n
    case 10 => "TEN"
    case 11 => "ELEVEN"
    case 12 => "TWELVE"
    case 13 => "THIRTEEN"
    case 14 => "FOURTEEN"
    case 15 => "FIFTEEN"
    case 16 => "SIXTEEN"
    case 17 => "SEVENTEEN"
    case 18 => "EIGHTEEN"
    case _ => "NINETEEN"
  }

  /** The spelling of `m` in 1..99: a unit, a teen, a round ten or a compound. */
  function SpellTensAndUnits(m: int): seq<Byte>
    requires 1 <= m <= 99
  {
    if m < 10 then UnitWord(m)
    else if m < 20 then TeenWord(m)
    else if m % 10 == 0 then TensWord(m / 10)
    else TensWord(m / 10) + UnitWord(m % 10)
  }

  /** The spelling of `n` in 0..299 in the grammar `<Hundred>AND<TensAndUnits>`. */
  function Spell(n: int): seq<Byte>
    requires 0 <= n < 300
  {
    if n == 0 then "ZERO"
    else if n < 100 then SpellTensAndUnits(n)
    else if n == 100 then "ONEHUNDRED"
    else if n < 200 then "ONEHUNDREDAND" + SpellTensAndUnits(n - 100)
    else if n == 200 then "TWOHUNDRED"
    else "TWOHUNDREDAND" + SpellTensAndUnits(n - 200)
  }

  /** A span of capital letters only. */
  predicate IsCapitalWord(w: seq<Byte>)
  {
    forall k :: 0 <= k < |w| ==> 'A' <= w[k] <= 'Z'
  }

  /** Every spelling is a word of at least three capital letters. */
  lemma SpellingIsCapitalWord(n: int)
    requires 0 <= n < 300
    ensures |Spell(n)| >= 3 && IsCapitalWord(Spell(n))
  {
    if 0 < n < 100 {
      SpellTensAndUnitsIsCapitalWord(n);
    } else if 100 < n < 200 {
      SpellTensAndUnitsIsCapitalWord(n - 100);
      CapitalWordsConcatenate("ONEHUNDREDAND", SpellTensAndUnits(n - 100));
    } else if 200 < n {
      SpellTensAndUnitsIsCapitalWord(n - 200);
      CapitalWordsConcatenate("TWOHUNDREDAND", SpellTensAndUnits(n - 200));
    }
  }

  lemma SpellTensAndUnitsIsCapitalWord(m: int)
    requires 1 <= m <= 99
    ensures |SpellTensAndUnits(m)| >= 3 && IsCapitalWord(SpellTensAndUnits(m))
  {
    if m < 10 {
      UnitWordIsCapitalWord(m);
    } else if m < 20 {
      TeenWordIsCapitalWord(m);
    } else if m % 10 == 0 {
      TensWordIsCapitalWord(m / 10);
    } else {
      UnitWordIsCapitalWord(m % 10);
      TensWordIsCapitalWord(m / 10);
      CapitalWordsConcatenate(TensWord(m / 10), UnitWord(m % 10));
    }
  }

  lemma CapitalWordsConcatenate(a: seq<Byte>, b: seq<Byte>)
    requires IsCapitalWord(a) && IsCapitalWord(b)
    ensures IsCapitalWord(a + b)
  {
    forall k | 0 <= k < |a + b|
      ensures 'A' <= (a + b)[k] <= 'Z'
    {
      if k < |a| {
        assert (a + b)[k] == a[k];
      } else {
        assert (a + b)[k] == b[k - |a|];
      }
    }
  }

  lemma UnitWordIsCapitalWord(d: int)
    requires 1 <= d <= 9
    ensures |UnitWord(d)| >= 3 && IsCapitalWord(UnitWord(d))
  {
  }

  lemma TensWordIsCapitalWord(t: int)
    requires 2 <= t <= 9
    ensures |TensWord(t)| >= 5 && IsCapitalWord(TensWord(t))
  {
  }

  lemma TeenWordIsCapitalWord(n: int)
    requires 10 <= n <= 19
    ensures |TeenWord(n)| >= 3 && IsCapitalWord(TeenWord(n))
  {
  }

  /** The compounds eight bytes long: FORTY, FIFTY or SIXTY followed by ONE, TWO or SIX. */
  predicate IsEightByteCompound(m: int)
  {
    m / 10 in {4, 5, 6} && m % 10 in {1, 2, 6}
  }

  /** The compounds 51..59, which the FIFTY prefix reads with the base 40. */
  predicate IsFiftyCompound(m: int)
  {
    50 < m < 60
  }

  /**
   * The value the resolver gives the spelling of `m` in 1..99: `m` itself,
   * except that SEVENTEEN (for which the source has no case) and the
   * eight-byte compounds are rejected, and the FIFTY compounds come out ten
   * too small.
   */
  function TensAndUnitsAsWritten(m: int): int
    requires 1 <= m <= 99
  {
    if m == 17 || IsEightByteCompound(m) then -1
    else if IsFiftyCompound(m) then m - 10
    else m
  }

  /** The value the resolver gives the spelling of `n` in 0..299. */
  function ValueAsWritten(n: int): int
    requires 0 <= n < 300
  {
    if n == 0 then 0
    else if n < 100 then TensAndUnitsAsWritten(n)
    else if n == 100 then 100
    else if n < 200 then
      var v := TensAndUnitsAsWritten(n - 100);
      if v < 0 then -1 else 100 + v
    else if n == 200 then 200
    else
      var v := TensAndUnitsAsWritten(n - 200);
      if v < 0 || 200 + v > 255 then -1 else 200 + v
  }

  /*************************************************************************
   * Lemmas: the resolver against the grammar
   *************************************************************************/

  /** A unit word matches only at its own length: what `_units` accepts is exactly the word of its digit. */
  lemma UnitsAreExact(w: seq<Byte>)
    ensures ParseUnits(w) >= 0 ==> w == UnitWord(ParseUnits(w))
  {
  }

  /** What `_tens` accepts is exactly the word of its round ten. */
  lemma TensAreExact(w: seq<Byte>)
    ensures ParseTens(w) >= 0 ==> w == TensWord(ParseTens(w) / 10)
  {
  }

  /** Each unit word resolves to its digit (the converse is ParseUnits' contract). */
  lemma UnitWordParses(d: int)
    requires 1 <= d <= 9
    ensures ParseUnits(UnitWord(d)) == d
  {
  }

  /** A span differing from `prefix` at some byte does not match that prefix. */
  lemma PrefixMismatch(w: seq<Byte>, prefix: seq<Byte>, k: nat)
    requires k < |prefix| && k < |w| && w[k] != prefix[k]
    ensures !MatchesPrefix(w, prefix)
  {
  }

  /**
   * The compound prefixes read `<tens><unit>` as the base of its prefix plus
   * the unit, where the base of FIFTY is 40.
   */
  lemma CompoundPrefixParses(t: int, u: int)
    requires 2 <= t <= 9 && 1 <= u <= 9
    ensures ParseCompound(TensWord(t) + UnitWord(u)) == (if t == 5 then 40 else 10 * t) + u
  {
    var p, s := TensWord(t), UnitWord(u);
    var w := p + s;
    assert w[..|p|] == p && w[|p|..] == s;
    UnitWordParses(u);
    if t == 3 {
      PrefixMismatch(w, "TWENTY", 1);
    } else if t == 4 {
      PrefixMismatch(w, "TWENTY", 0); PrefixMismatch(w, "THIRTY", 0);
    } else if t == 5 {
      PrefixMismatch(w, "TWENTY", 0); PrefixMismatch(w, "THIRTY", 0);
      PrefixMismatch(w, "FORTY", 1);
    } else if t == 6 {
      PrefixMismatch(w, "TWENTY", 0); PrefixMismatch(w, "THIRTY", 0);
      PrefixMismatch(w, "FORTY", 0); PrefixMismatch(w, "FIFTY", 0);
    } else if t == 7 {
      PrefixMismatch(w, "TWENTY", 0); PrefixMismatch(w, "THIRTY", 0);
      PrefixMismatch(w, "FORTY", 0); PrefixMismatch(w, "FIFTY", 0);
      PrefixMismatch(w, "SIXTY", 1);
    } else if t == 8 {
      PrefixMismatch(w, "TWENTY", 0); PrefixMismatch(w, "THIRTY", 0);
      PrefixMismatch(w, "FORTY", 0); PrefixMismatch(w, "FIFTY", 0);
      PrefixMismatch(w, "SIXTY", 0); PrefixMismatch(w, "SEVENTY", 0);
    } else if t == 9 {
      PrefixMismatch(w, "TWENTY", 0); PrefixMismatch(w, "THIRTY", 0);
      PrefixMismatch(w, "FORTY", 0); PrefixMismatch(w, "FIFTY", 0);
      PrefixMismatch(w, "SIXTY", 0); PrefixMismatch(w, "SEVENTY", 0);
      PrefixMismatch(w, "EIGHTY", 0);
    }
  }

  /** The eight-byte compounds fall into the length-8 teen case and match none of its words. */
  lemma EightByteCompoundRejected(t: int, u: int)
    requires t in {4, 5, 6} && u in {1, 2, 6}
    ensures ParseTensAndUnits(TensWord(t) + UnitWord(u)) == -1
  {
    var w := TensWord(t) + UnitWord(u);
    assert w[0] == TensWord(t)[0] && w[1] == TensWord(t)[1] && w[2] == TensWord(t)[2];
    if t == 4 {
      assert w[2] == 'R';
    } else if t == 5 {
      assert w[1] == 'I';
    } else {
      assert w[0] == 'S';
    }
  }

  /**
   * `<tens><unit>` resolves to the base of its prefix plus the unit (the base
   * of FIFTY being 40), except for the eight-byte compounds, which are
   * rejected.
   */
  lemma CompoundParses(t: int, u: int)
    requires 2 <= t <= 9 && 1 <= u <= 9
    ensures ParseTensAndUnits(TensWord(t) + UnitWord(u)) ==
      if t in {4, 5, 6} && u in {1, 2, 6} then -1
      else (if t == 5 then 40 else 10 * t) + u
  {
    if t in {4, 5, 6} && u in {1, 2, 6} {
      EightByteCompoundRejected(t, u);
    } else {
      CompoundPrefixParses(t, u);
    }
  }

  /** SEVENTEEN is nine bytes long and none of the compound prefixes matches it. */
  lemma SeventeenRejected()
    ensures ParseTensAndUnits("SEVENTEEN") == -1
  {
    var w: seq<Byte> := "SEVENTEEN";
    PrefixMismatch(w, "TWENTY", 0); PrefixMismatch(w, "THIRTY", 0);
    PrefixMismatch(w, "FORTY", 0); PrefixMismatch(w, "FIFTY", 0);
    PrefixMismatch(w, "SIXTY", 1); PrefixMismatch(w, "SEVENTY", 6);
    PrefixMismatch(w, "EIGHTY", 0); PrefixMismatch(w, "NINETY", 0);
  }

  /** Every teen word but SEVENTEEN resolves to its value. */
  lemma TeenWordParses(n: int)
    requires 10 <= n <= 19
    ensures ParseTensAndUnits(TeenWord(n)) == if n == 17 then -1 else n
  {
    match n
    case 10 => assert ParseUnits("TEN") == -1;
    case 11 => assert ParseTens("ELEVEN") == -1;
    case 12 => assert ParseTens("TWELVE") == -1;
    case 13 => assert ParseUnits("THIRTEEN") == -1 && ParseTens("THIRTEEN") == -1;
    case 14 => assert ParseUnits("FOURTEEN") == -1 && ParseTens("FOURTEEN") == -1;
    case 15 => assert ParseTens("FIFTEEN") == -1;
    case 16 => assert ParseTens("SIXTEEN") == -1;
    case 17 => SeventeenRejected();
    case 18 => assert ParseUnits("EIGHTEEN") == -1 && ParseTens("EIGHTEEN") == -1;
    case 19 => assert ParseUnits("NINETEEN") == -1 && ParseTens("NINETEEN") == -1;
  }

  /** Every round ten resolves to its value. */
  lemma TensWordParses(t: int)
    requires 2 <= t <= 9
    ensures ParseTensAndUnits(TensWord(t)) == 10 * t
  {
    match t
    case 2 => assert ParseUnits("TWENTY") == -1;
    case 3 => assert ParseUnits("THIRTY") == -1;
    case 4 => assert ParseUnits("FORTY") == -1;
    case 5 => assert ParseUnits("FIFTY") == -1;
    case 6 => assert ParseUnits("SIXTY") == -1;
    case 7 => assert ParseUnits("SEVENTY") == -1;
    case 8 => assert ParseUnits("EIGHTY") == -1;
    case 9 => assert ParseUnits("NINETY") == -1;
  }

  /** The canonical spelling of `m` in 1..99 resolves to `m`, quirks of the source aside. */
  lemma SpellTensAndUnitsParses(m: int)
    requires 1 <= m <= 99
    ensures ParseTensAndUnits(SpellTensAndUnits(m)) == TensAndUnitsAsWritten(m)
  {
    if m < 10 {
      UnitWordParses(m);
    } else if m < 20 {
      TeenWordParses(m);
    } else if m % 10 == 0 {
      TensWordParses(m / 10);
    } else {
      CompoundParses(m / 10, m % 10);
    }
  }

  /** A span starting ONEHUNDREDAND or TWOHUNDREDAND is no tens-and-units word. */
  lemma HundredAndIsNotTensAndUnits(w: seq<Byte>)
    requires |w| >= 13 && (w[..13] == "ONEHUNDREDAND" || w[..13] == "TWOHUNDREDAND")
    ensures ParseTensAndUnits(w) == -1
  {
    assert w[0] == w[..13][0] && w[1] == w[..13][1] && w[2] == w[..13][2];
    if w[..13] == "ONEHUNDREDAND" {
      PrefixMismatch(w, "TWENTY", 0); PrefixMismatch(w, "THIRTY", 0);
    } else {
      PrefixMismatch(w, "TWENTY", 2); PrefixMismatch(w, "THIRTY", 1);
    }
    PrefixMismatch(w, "FORTY", 0); PrefixMismatch(w, "FIFTY", 0);
    PrefixMismatch(w, "SIXTY", 0); PrefixMismatch(w, "SEVENTY", 0);
    PrefixMismatch(w, "EIGHTY", 0); PrefixMismatch(w, "NINETY", 0);
  }

  /**
   * ONEHUNDREDAND followed by `w` is 100 plus the tens-and-units value of `w`
   * when `w` has at least three bytes and is such a word, and is rejected
   * otherwise.
   */
  lemma OneHundredAndParses(w: seq<Byte>)
    ensures ParseEnglishNumber("ONEHUNDREDAND" + w) ==
      if |w| >= 3 && ParseTensAndUnits(w) >= 0 then 100 + ParseTensAndUnits(w) else -1
  {
    var x := "ONEHUNDREDAND" + w;
    assert x[..13] == "ONEHUNDREDAND" && x[13..] == w;
    PrefixMismatch(x, "TWOHUNDREDAND", 0);
    HundredAndIsNotTensAndUnits(x);
  }

  /**
   * TWOHUNDREDAND followed by `w` is 200 plus the tens-and-units value `v` of
   * `w` when `w` has at least three bytes, is such a word and 200 + v fits in
   * a byte; otherwise the span falls through to the tens-and-units parse of
   * the whole span, which rejects it.
   */
  lemma TwoHundredAndParses(w: seq<Byte>)
    ensures ParseEnglishNumber("TWOHUNDREDAND" + w) ==
      var v := ParseTensAndUnits(w);
      if |w| >= 3 && v >= 0 && 200 + v <= 255 then 200 + v else -1
  {
    var x := "TWOHUNDREDAND" + w;
    assert x[..13] == "TWOHUNDREDAND" && x[13..] == w;
    PrefixMismatch(x, "ONEHUNDREDAND", 0);
    HundredAndIsNotTensAndUnits(x);
  }

  /** No spelling of 1..99 is, or starts like, one of the hundred words. */
  lemma SpellTensAndUnitsIsNoHundred(m: int)
    requires 1 <= m <= 99
    ensures var w := SpellTensAndUnits(m);
      3 <= |w| <= 12 && w != "ZERO" && w != "ONEHUNDRED" && w != "TWOHUNDRED"
  {
    var w := SpellTensAndUnits(m);
    if 20 <= m && m % 10 != 0 {
      var p := TensWord(m / 10);
      assert w[0] == p[0] && w[2] == p[2];
    }
  }

  /** The canonical spelling of `n` in 0..299 resolves to the value the source gives it. */
  lemma SpellingParses(n: int)
    requires 0 <= n < 300
    ensures ParseEnglishNumber(Spell(n)) == ValueAsWritten(n)
  {
    if 0 < n < 100 {
      SpellTensAndUnitsIsNoHundred(n);
      SpellTensAndUnitsParses(n);
    } else if 100 < n < 200 {
      SpellTensAndUnitsIsNoHundred(n - 100);
      SpellTensAndUnitsParses(n - 100);
      OneHundredAndParses(SpellTensAndUnits(n - 100));
    } else if 200 < n {
      SpellTensAndUnitsIsNoHundred(n - 200);
      SpellTensAndUnitsParses(n - 200);
      TwoHundredAndParses(SpellTensAndUnits(n - 200));
    }
  }

  /** Away from the quirks of the source, the value given to the spelling of `n` is `n`. */
  lemma ValueAsWrittenIsValue(n: int)
    requires 0 <= n <= 255
    requires n % 100 != 17 && !IsEightByteCompound(n % 100) && !IsFiftyCompound(n % 100)
    ensures ValueAsWritten(n) == n
  {
    var m := n % 100;
    if 0 < n < 100 {
      assert m == n;
    } else if 100 < n < 200 {
      assert m == n - 100;
    } else if 200 < n {
      assert m == n - 200;
    }
  }

  /**
   * Round trip: every byte value whose last two digits avoid the quirks of
   * the source (17, the eight-byte compounds and 51..59) resolves from its
   * spelling back to itself.
   */
  lemma SpellingRoundTrip(n: int)
    requires 0 <= n <= 255
    requires n % 100 != 17 && !IsEightByteCompound(n % 100) && !IsFiftyCompound(n % 100)
    ensures ParseEnglishNumber(Spell(n)) == n
  {
    SpellingParses(n);
    ValueAsWrittenIsValue(n);
  }

  /** A compound prefix that accepts `w` has split it into that prefix and a unit word. */
  lemma PrefixThenUnitsSpelled(w: seq<Byte>, prefix: seq<Byte>, base: int)
    requires PrefixThenUnits(w, prefix, base) >= 0
    ensures var u := ParseUnits(w[|prefix|..]);
      1 <= u <= 9 && w == prefix + UnitWord(u)
  {
    UnitsAreExact(w[|prefix|..]);
    assert w == w[..|prefix|] + w[|prefix|..];
  }

  /** The spelling of `10 * t + u` is the tens word followed by the unit word. */
  lemma CompoundSpelling(t: int, u: int)
    requires 2 <= t <= 9 && 1 <= u <= 9
    ensures SpellTensAndUnits(10 * t + u) == TensWord(t) + UnitWord(u)
  {
    var m := 10 * t + u;
    assert m / 10 == t && m % 10 == u;
  }

  /** A span accepted by the compound prefix of `10 * t` is the spelling of a compound number. */
  lemma PrefixThenUnitsIsCompound(w: seq<Byte>, t: int, base: int)
    requires 2 <= t <= 9 && PrefixThenUnits(w, TensWord(t), base) >= 0
    ensures exists m :: 20 < m <= 99 && w == SpellTensAndUnits(m)
  {
    var p := TensWord(t);
    PrefixThenUnitsSpelled(w, p, base);
    var u := ParseUnits(w[|p|..]);
    CompoundSpelling(t, u);
    assert 20 < 10 * t + u <= 99;
  }

  /** Every word the compound branch accepts is the spelling of a compound number. */
  lemma CompoundIsSpelled(w: seq<Byte>)
    requires ParseCompound(w) >= 0
    ensures exists m :: 20 < m <= 99 && w == SpellTensAndUnits(m)
  {
    if PrefixThenUnits(w, "TWENTY", 20) >= 0 {
      PrefixThenUnitsIsCompound(w, 2, 20);
    } else if PrefixThenUnits(w, "THIRTY", 30) >= 0 {
      PrefixThenUnitsIsCompound(w, 3, 30);
    } else if PrefixThenUnits(w, "FORTY", 40) >= 0 {
      PrefixThenUnitsIsCompound(w, 4, 40);
    } else if PrefixThenUnits(w, "FIFTY", 40) >= 0 {
      PrefixThenUnitsIsCompound(w, 5, 40);
    } else if PrefixThenUnits(w, "SIXTY", 60) >= 0 {
      PrefixThenUnitsIsCompound(w, 6, 60);
    } else if PrefixThenUnits(w, "SEVENTY", 70) >= 0 {
      PrefixThenUnitsIsCompound(w, 7, 70);
    } else if PrefixThenUnits(w, "EIGHTY", 80) >= 0 {
      PrefixThenUnitsIsCompound(w, 8, 80);
    } else {
      PrefixThenUnitsIsCompound(w, 9, 90);
    }
  }

  /** Every tens-and-units word the resolver accepts is the spelling of a number in 1..99. */
  lemma TensAndUnitsIsSpelled(w: seq<Byte>)
    requires ParseTensAndUnits(w) >= 0
    ensures exists m :: 1 <= m <= 99 && w == SpellTensAndUnits(m)
  {
    var units, tens := ParseUnits(w), ParseTens(w);
    UnitsAreExact(w);
    TensAreExact(w);
    if units >= 0 {
      assert w == SpellTensAndUnits(units);
    } else if tens >= 0 {
      assert w == SpellTensAndUnits(tens);
    } else if |w| in {3, 6, 7, 8} {
      var r := ParseTensAndUnits(w);
      assert w == TeenWord(r) == SpellTensAndUnits(r);
    } else {
      CompoundIsSpelled(w);
    }
  }

  /**
   * Every word the resolver accepts is the spelling of a number in 0..299,
   * and it resolves to the value the source gives that spelling.
   */
  lemma AcceptedWordIsSpelling(w: seq<Byte>)
    requires ParseEnglishNumber(w) >= 0
    ensures exists n :: 0 <= n < 300 && w == Spell(n) && ParseEnglishNumber(w) == ValueAsWritten(n)
  {
    var n;
    if w == "ZERO" {
      n := 0;
    } else if w == "ONEHUNDRED" {
      n := 100;
    } else if w == "TWOHUNDRED" {
      n := 200;
    } else if MatchesPrefix(w, "ONEHUNDREDAND") && ParseTensAndUnits(w[13..]) >= 0 {
      TensAndUnitsIsSpelled(w[13..]);
      var m :| 1 <= m <= 99 && w[13..] == SpellTensAndUnits(m);
      assert w == "ONEHUNDREDAND" + w[13..];
      n := 100 + m;
    } else if MatchesPrefix(w, "TWOHUNDREDAND") && ParseTensAndUnits(w[13..]) >= 0
              && 200 + ParseTensAndUnits(w[13..]) <= 255 {
      TensAndUnitsIsSpelled(w[13..]);
      var m :| 1 <= m <= 99 && w[13..] == SpellTensAndUnits(m);
      assert w == "TWOHUNDREDAND" + w[13..];
      n := 200 + m;
    } else {
      TensAndUnitsIsSpelled(w);
      var m :| 1 <= m <= 99 && w == SpellTensAndUnits(m);
      n := m;
    }
    assert w == Spell(n);
    SpellingParses(n);
  }

  /** The resolver accepts only words of at least three capital letters. */
  lemma AcceptedWordIsCapitalWord(w: seq<Byte>)
    ensures ParseEnglishNumber(w) >= 0 ==> |w| >= 3 && IsCapitalWord(w)
  {
    if ParseEnglishNumber(w) >= 0 {
      AcceptedWordIsSpelling(w);
      var n :| 0 <= n < 300 && w == Spell(n);
      SpellingIsCapitalWord(n);
    }
  }

  /** A word followed by a space is never a number word. */
  lemma TrailingSpaceRejected(w: seq<Byte>)
    ensures ParseEnglishNumber(w + " ") == -1
  {
    AcceptedWordIsCapitalWord(w + " ");
    assert (w + " ")[|w|] == ' ';
  }

  /**
   * No number word resolves above 250: TWOHUNDREDANDFIFTY is the largest,
   * since the FIFTY compounds that would reach 251..255 come out ten too
   * small.
   */
  lemma ParseEnglishNumberAtMost250(w: seq<Byte>)
    ensures ParseEnglishNumber(w) <= 250
  {
    if ParseEnglishNumber(w) >= 0 {
      AcceptedWordIsSpelling(w);
    }
  }

  /** ZERO, ONEHUNDRED and TWOHUNDRED are the only words for 0, 100 and 200. */
  lemma RoundValuesHaveOneWord(w: seq<Byte>)
    ensures ParseEnglishNumber(w) == 0 <==> w == "ZERO"
    ensures ParseEnglishNumber(w) == 100 <==> w == "ONEHUNDRED"
    ensures ParseEnglishNumber(w) == 200 <==> w == "TWOHUNDRED"
  {
  }

  /** FIFTYFIVE comes out as 45, the value of FORTYFIVE. */
  lemma FiftyFiveIs45()
    ensures ParseEnglishNumber("FIFTYFIVE") == 45
  {
    assert Spell(55) == "FIFTYFIVE";
    SpellingParses(55);
  }

  /** The FIFTY compounds come out ten too small: FIFTY<u> resolves as FORTY<u> does. */
  lemma FiftyCompoundsAreFortyCompounds(u: int)
    requires 1 <= u <= 9
    ensures ParseEnglishNumber(TensWord(5) + UnitWord(u)) == ParseEnglishNumber(TensWord(4) + UnitWord(u))
  {
    CompoundSpelling(5, u);
    CompoundSpelling(4, u);
    SpellingParses(50 + u);
    SpellingParses(40 + u);
  }

  /** FORTYONE is eight bytes long and rejected. */
  lemma FortyOneRejected()
    ensures ParseEnglishNumber("FORTYONE") == -1
  {
    assert Spell(41) == "FORTYONE";
    SpellingParses(41);
  }

  /** TWOHUNDREDANDFIFTYFIVE comes out as 245, with FIFTY read as forty. */
  lemma TwoHundredAndFiftyFiveIs245()
    ensures ParseEnglishNumber("TWOHUNDREDANDFIFTYFIVE") == 245
  {
    assert Spell(255) == "TWOHUNDREDANDFIFTYFIVE";
    SpellingParses(255);
  }

  /** TWOHUNDREDANDFIFTY, 250, is accepted: the plain tens word FIFTY is 50. */
  lemma TwoHundredAndFiftyIs250()
    ensures ParseEnglishNumber("TWOHUNDREDANDFIFTY") == 250
  {
    assert Spell(250) == "TWOHUNDREDANDFIFTY";
    SpellingParses(250);
  }

  /** TWOHUNDREDANDFIFTYSIX is rejected: its remainder FIFTYSIX is eight bytes long. */
  lemma TwoHundredAndFiftySixRejected()
    ensures ParseEnglishNumber("TWOHUNDREDANDFIFTYSIX") == -1
  {
    assert Spell(256) == "TWOHUNDREDANDFIFTYSIX";
    SpellingParses(256);
  }

  /** TWOHUNDREDANDSIXTY is rejected: 260 does not fit in a byte. */
  lemma TwoHundredAndSixtyRejected()
    ensures ParseEnglishNumber("TWOHUNDREDANDSIXTY") == -1
  {
    assert Spell(260) == "TWOHUNDREDANDSIXTY";
    SpellingParses(260);
  }
}
