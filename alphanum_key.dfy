/**
 * The sort key of `natural_sort` (libs/utils.py): `re.split('([0-9]+)', s)`
 * cuts a string into text runs and maximal runs of ASCII digits, and
 * `convert` turns every digit run into the integer it spells while leaving
 * the text runs as strings. Keys are compared the way Python compares lists:
 * lexicographically, strings by code point and integers numerically.
 *
 * The model assumes that no character of the strings it sorts other than
 * '0'..'9' satisfies Python's `str.isdigit()`. Dafny strings can hold such
 * characters (U+0663, say): for them the model keeps a text piece where
 * Python would call `int()` on the run.
 */
module AlphanumKey {
  import opened Lexicographic

  /** One element of a sort key: a text run, or the value of a digit run. */
  datatype Piece = Text(text: string) | Num(value: nat)

  /** The character class `[0-9]` of the split pattern. */
  predicate IsDigit(c: char) {
    '0' <= c <= '9'
  }

  predicate AllDigits(s: string) {
    forall i :: 0 <= i < |s| ==> IsDigit(s[i])
  }

  predicate NoDigits(s: string) {
    forall i :: 0 <= i < |s| ==> !IsDigit(s[i])
  }

  /**
   * The list `re.split('([0-9]+)', s)` returns: text runs at the even
   * positions and, because the pattern has a capturing group, the digit runs
   * that separate them at the odd positions. The list always has an odd
   * length, so it starts and ends with a (possibly empty) text run.
   * Built one character at a time from the front.
   */
  function Split(s: string): (r: seq<string>)
    ensures |r| % 2 == 1
  {
    if |s| == 0 then [""]
    else
      var rest := Split(s[1..]);
      if IsDigit(s[0]) then
        if rest[0] == "" && |rest| > 1 then ["", [s[0]] + rest[1]] + rest[2..]
        else ["", [s[0]]] + rest
      else [[s[0]] + rest[0]] + rest[1..]
  }

  /** `''.join(pieces)`. */
  function Concat(r: seq<string>): string {
    if |r| == 0 then "" else r[0] + Concat(r[1..])
  }

  /**
   * What makes a list of runs the result of splitting on maximal digit runs:
   * an odd number of runs, digit-free text at the even positions, non-empty
   * digit runs at the odd positions, and no empty text run between two digit
   * runs (otherwise those two runs would be one).
   */
  ghost predicate WellFormedSplit(r: seq<string>) {
    && |r| % 2 == 1
    && (forall i :: 0 <= i < |r| && i % 2 == 0 ==> NoDigits(r[i]))
    && (forall i :: 0 <= i < |r| && i % 2 == 1 ==> r[i] != "" && AllDigits(r[i]))
    && (forall i :: 0 < i < |r| - 1 && i % 2 == 0 ==> r[i] != "")
  }

  lemma {:induction false} SplitWellFormed(s: string)
    ensures WellFormedSplit(Split(s))
  {
    if |s| > 0 {
      SplitWellFormed(s[1..]);
      var rest := Split(s[1..]);
      var r := Split(s);
      if IsDigit(s[0]) {
        if rest[0] == "" && |rest| > 1 {
          assert r[1] == [s[0]] + rest[1];
          forall i | 2 <= i < |r| ensures r[i] == rest[i] { }
        } else {
          forall i | 2 <= i < |r| ensures r[i] == rest[i - 2] { }
        }
      } else {
        forall i | 1 <= i < |r| ensures r[i] == rest[i] { }
      }
    }
  }

  lemma {:induction false} SplitConcat(s: string)
    ensures Concat(Split(s)) == s
  {
    if |s| > 0 {
      SplitConcat(s[1..]);
      var rest := Split(s[1..]);
      var r := Split(s);
      if IsDigit(s[0]) {
        if rest[0] == "" && |rest| > 1 {
          assert r[1..][1..] == rest[2..];
          assert Concat(rest) == rest[1] + Concat(rest[2..]) by {
            assert rest[1..][1..] == rest[2..];
          }
        } else {
          assert r[1..][1..] == rest;
        }
      } else {
        assert r[1..] == rest[1..];
      }
      assert s == [s[0]] + s[1..];
    }
  }

  /**
   * The split is the only well-formed list of runs that concatenates to the
   * string: whatever the regular-expression engine does, these two
   * properties fix its result.
   */
  lemma {:induction false} SplitUnique(s: string, r: seq<string>)
    requires WellFormedSplit(r) && Concat(r) == s
    ensures r == Split(s)
    decreases |s|
  {
    if |s| == 0 {
    } else if r[0] != "" {
      var r' := TextStep(r);
      SplitUnique(s[1..], r');
      assert r[0] == [s[0]] + r'[0];
      assert r == [r[0]] + r'[1..];
    } else {
      if |r[1]| == 1 {
        var r' := ShortDigitStep(r);
        SplitUnique(s[1..], r');
        assert r[1] == [s[0]];
        assert r == [r[0], r[1]] + r';
      } else {
        var r' := LongDigitStep(r);
        SplitUnique(s[1..], r');
        assert r[1] == [s[0]] + r'[1];
        assert r == [r[0], r[1]] + r'[2..];
      }
    }
  }

  /** Removing the first character of a non-empty leading text run. */
  lemma TextStep(r: seq<string>) returns (r': seq<string>)
    requires WellFormedSplit(r) && r[0] != ""
    ensures r' == [r[0][1..]] + r[1..] && WellFormedSplit(r')
    ensures |Concat(r)| > 0 && Concat(r)[0] == r[0][0] && !IsDigit(r[0][0])
    ensures Concat(r') == Concat(r)[1..]
  {
    r' := [r[0][1..]] + r[1..];
    forall i | 0 <= i < |r'| && i % 2 == 0 ensures NoDigits(r'[i]) {
      if i == 0 {
        assert forall j :: 0 <= j < |r'[0]| ==> r'[0][j] == r[0][j + 1];
      } else {
        assert r'[i] == r[i];
      }
    }
    forall i | 0 <= i < |r'| && i % 2 == 1 ensures r'[i] != "" && AllDigits(r'[i]) {
      assert r'[i] == r[i];
    }
    forall i | 0 < i < |r'| - 1 && i % 2 == 0 ensures r'[i] != "" {
      assert r'[i] == r[i];
    }
    assert Concat(r) == r[0] + Concat(r[1..]);
    assert Concat(r') == r[0][1..] + Concat(r[1..]) by { assert r'[1..] == r[1..]; }
    assert r[0] == [r[0][0]] + r[0][1..];
    assert NoDigits(r[0]);
  }

  /** A leading empty text run and a digit run of one digit. */
  lemma ShortDigitStep(r: seq<string>) returns (r': seq<string>)
    requires WellFormedSplit(r) && |r| > 1 && r[0] == "" && |r[1]| == 1
    ensures r' == r[2..] && WellFormedSplit(r') && (|r'| > 1 ==> r'[0] != "")
    ensures |Concat(r)| > 0 && Concat(r)[0] == r[1][0] && IsDigit(r[1][0])
    ensures Concat(r') == Concat(r)[1..]
  {
    r' := r[2..];
    forall i | 0 <= i < |r'| ensures r'[i] == r[i + 2] { }
    DigitRunConcat(r);
  }

  /** A leading empty text run and a digit run of two digits or more. */
  lemma LongDigitStep(r: seq<string>) returns (r': seq<string>)
    requires WellFormedSplit(r) && |r| > 1 && r[0] == "" && |r[1]| > 1
    ensures r' == ["", r[1][1..]] + r[2..] && WellFormedSplit(r') && r'[0] == "" && |r'| > 1
    ensures |Concat(r)| > 0 && Concat(r)[0] == r[1][0] && IsDigit(r[1][0])
    ensures Concat(r') == Concat(r)[1..]
  {
    r' := ["", r[1][1..]] + r[2..];
    forall i | 2 <= i < |r'| ensures r'[i] == r[i] { }
    assert forall j :: 0 <= j < |r'[1]| ==> r'[1][j] == r[1][j + 1];
    assert NoDigits(r'[0]);
    DigitRunConcat(r);
    DigitRunConcat(r');
  }

  /** With an empty leading text run, the string starts with the first digit run. */
  lemma DigitRunConcat(r: seq<string>)
    requires WellFormedSplit(r) && |r| > 1 && r[0] == ""
    ensures Concat(r) == r[1] + Concat(r[2..])
    ensures r[1] == [r[1][0]] + r[1][1..] && IsDigit(r[1][0])
  {
    assert Concat(r) == r[0] + Concat(r[1..]);
    assert r[1..][1..] == r[2..];
    assert r[1] != "" && AllDigits(r[1]);
  }

  /** `int(d)` for a string of ASCII digits (leading zeros allowed). */
  function DigitsValue(d: string): nat
    requires AllDigits(d)
  {
    if |d| == 0 then 0
    else DigitsValue(d[..|d| - 1]) * 10 + (d[|d| - 1] as int - '0' as int)
  }

  /** `int()` ignores leading zeros: "07" and "7" give the same number. */
  lemma {:induction false} LeadingZero(d: string)
    requires AllDigits(d)
    ensures AllDigits("0" + d) && DigitsValue("0" + d) == DigitsValue(d)
  {
    if |d| > 0 {
      LeadingZero(d[..|d| - 1]);
      assert ("0" + d)[..|d|] == "0" + d[..|d| - 1];
    }
  }

  /** `convert`: `int(text) if text.isdigit() else text`. */
  function Convert(t: string): (p: Piece)
    ensures p.Num? <==> t != "" && AllDigits(t)
    ensures p.Text? ==> p.text == t
  {
    if |t| > 0 && AllDigits(t) then Num(DigitsValue(t)) else Text(t)
  }

  /**
   * The key `natural_sort` sorts by. Its pieces alternate: text at the even
   * positions, numbers at the odd ones, and there is an odd number of them.
   */
  function SplitKey(s: string): (k: seq<Piece>)
    ensures |k| % 2 == 1
    ensures forall i :: 0 <= i < |k| ==> (k[i].Num? <==> i % 2 == 1)
  {
    SplitWellFormed(s);
    var r := Split(s);
    seq(|r|, i requires 0 <= i < |r| => Convert(r[i]))
  }

  /**
   * Each piece of the key comes from the run at the same position: the text
   * runs unchanged, the digit runs as the numbers they spell.
   */
  lemma SplitKeyPieces(s: string, i: nat)
    requires i < |Split(s)|
    ensures |SplitKey(s)| == |Split(s)|
    ensures i % 2 == 0 ==> SplitKey(s)[i] == Text(Split(s)[i])
    ensures i % 2 == 1 ==> AllDigits(Split(s)[i]) && SplitKey(s)[i] == Num(DigitsValue(Split(s)[i]))
  {
    SplitWellFormed(s);
    if i % 2 == 0 {
      assert NoDigits(Split(s)[i]);
    }
  }

  /** Every position two keys share holds pieces of the same kind. */
  lemma KeysComparable(s: string, t: string, i: nat)
    requires i < |SplitKey(s)| && i < |SplitKey(t)|
    ensures SplitKey(s)[i].Num? == SplitKey(t)[i].Num?
  {
  }

  predicate CharLess(c: char, d: char) {
    c < d
  }

  /** Python's `<` on `str`: lexicographic by code point. */
  predicate StrLess(s: string, t: string) {
    LexLess(s, t, CharLess)
  }

  /**
   * Python's `<` on two pieces. A text piece is never compared with a number
   * (KeysComparable); the model orders that case Text before Num only so
   * that the order is total on all pieces.
   */
  predicate PieceLess(p: Piece, q: Piece) {
    match (p, q)
    case (Text(s), Text(t)) => StrLess(s, t)
    case (Num(m), Num(n)) => m < n
    case (Text(_), Num(_)) => true
    case (Num(_), Text(_)) => false
  }

  /** Python's `<` on two key lists. */
  predicate KeyLess(a: seq<Piece>, b: seq<Piece>) {
    LexLess(a, b, PieceLess)
  }

  /**
   * When two keys differ, their first difference is between two pieces of
   * the same kind, so comparing keys never reaches the mixed case that
   * would raise TypeError in Python.
   */
  lemma {:induction false} KeyCompareSameKind(s: string, t: string, i: nat)
    requires i < |SplitKey(s)| && i < |SplitKey(t)|
    requires SplitKey(s)[i] != SplitKey(t)[i]
    ensures PieceLess(SplitKey(s)[i], SplitKey(t)[i]) ==
      (if SplitKey(s)[i].Num? then SplitKey(s)[i].value < SplitKey(t)[i].value
       else StrLess(SplitKey(s)[i].text, SplitKey(t)[i].text))
  {
    KeysComparable(s, t, i);
  }

  lemma CharLessStrictTotal()
    ensures StrictTotalOrder(CharLess)
  {
  }

  lemma PieceLessStrictTotal()
    ensures StrictTotalOrder(PieceLess)
  {
    CharLessStrictTotal();
    forall p: Piece ensures !PieceLess(p, p) {
      if p.Text? {
        LexIrreflexive(p.text, CharLess);
      }
    }
    forall p: Piece, q: Piece, o: Piece | PieceLess(p, q) && PieceLess(q, o) ensures PieceLess(p, o) {
      if p.Text? && q.Text? && o.Text? {
        LexTransitive(p.text, q.text, o.text, CharLess);
      }
    }
    forall p: Piece, q: Piece | p != q ensures PieceLess(p, q) || PieceLess(q, p) {
      if p.Text? && q.Text? {
        LexTotal(p.text, q.text, CharLess);
      }
    }
  }

  /** Key comparison is a strict total order, as `list.sort` needs. */
  lemma KeyLessStrictTotal()
    ensures StrictTotalOrder(KeyLess)
  {
    PieceLessStrictTotal();
    forall a: seq<Piece> ensures !KeyLess(a, a) {
      LexIrreflexive(a, PieceLess);
    }
    forall a: seq<Piece>, b: seq<Piece>, c: seq<Piece> | KeyLess(a, b) && KeyLess(b, c) ensures KeyLess(a, c) {
      LexTransitive(a, b, c, PieceLess);
    }
    forall a: seq<Piece>, b: seq<Piece> | a != b ensures KeyLess(a, b) || KeyLess(b, a) {
      LexTotal(a, b, PieceLess);
    }
  }

  /** The key of a string with exactly one digit run. */
  lemma OneNumberKey(t: string, d: string, u: string)
    requires NoDigits(t) && d != "" && AllDigits(d) && NoDigits(u)
    ensures SplitKey(t + d + u) == [Text(t), Num(DigitsValue(d)), Text(u)]
  {
    var r := [t, d, u];
    assert Concat(r) == t + d + u by {
      assert r[1..][1..][1..] == [];
      assert Concat(r[1..][1..]) == u + "";
    }
    SplitUnique(t + d + u, r);
  }

  lemma KeyLessIrreflexive(a: seq<Piece>)
    ensures !KeyLess(a, a)
  {
    PieceLessStrictTotal();
    LexIrreflexive(a, PieceLess);
  }

  /** With the same text around one digit run, the smaller number sorts first. */
  lemma SmallerNumberFirst(t: string, d1: string, d2: string, u: string)
    requires NoDigits(t) && NoDigits(u)
    requires d1 != "" && AllDigits(d1) && d2 != "" && AllDigits(d2)
    requires DigitsValue(d1) < DigitsValue(d2)
    ensures KeyLess(SplitKey(t + d1 + u), SplitKey(t + d2 + u))
  {
    OneNumberKey(t, d1, u);
    OneNumberKey(t, d2, u);
    var k1: seq<Piece> := [Text(t), Num(DigitsValue(d1)), Text(u)];
    var k2: seq<Piece> := [Text(t), Num(DigitsValue(d2)), Text(u)];
    assert k1[1..] == [Num(DigitsValue(d1)), Text(u)];
    assert k2[1..] == [Num(DigitsValue(d2)), Text(u)];
    assert LexLess(k1[1..], k2[1..], PieceLess);
  }

  /** "item2" sorts before "item10", because 2 < 10. */
  lemma ItemTwoBeforeItemTen()
    ensures KeyLess(SplitKey("item2"), SplitKey("item10"))
  {
    assert DigitsValue("10") == 10 by { assert "10"[..1] == "1"; }
    SmallerNumberFirst("item", "2", "10", "");
    assert "item" + "2" + "" == "item2";
    assert "item" + "10" + "" == "item10";
  }

  lemma ItemOneBeforeItemTen()
    ensures KeyLess(SplitKey("item1"), SplitKey("item10"))
  {
    assert DigitsValue("10") == 10 by { assert "10"[..1] == "1"; }
    SmallerNumberFirst("item", "1", "10", "");
    assert "item" + "1" + "" == "item1";
    assert "item" + "10" + "" == "item10";
  }

  lemma ItemOneBeforeItemTwo()
    ensures KeyLess(SplitKey("item1"), SplitKey("item2"))
  {
    SmallerNumberFirst("item", "1", "2", "");
    assert "item" + "1" + "" == "item1";
    assert "item" + "2" + "" == "item2";
  }

  /** As plain text, "item10" sorts before "item2": the order the key avoids. */
  lemma ItemTenBeforeItemTwoAsText()
    ensures StrLess("item10", "item2")
  {
    var a, b := "item10", "item2";
    assert a[1..][1..][1..][1..] == "10" && b[1..][1..][1..][1..] == "2";
    assert LexLess("10", "2", CharLess);
    assert LexLess(a[1..][1..][1..], b[1..][1..][1..], CharLess);
    assert LexLess(a[1..][1..], b[1..][1..], CharLess);
    assert LexLess(a[1..], b[1..], CharLess);
  }

  /** "a07" and "a7" have equal keys: the digit runs both count as 7. */
  lemma LeadingZerosEqualKeys()
    ensures SplitKey("a07") == SplitKey("a7")
  {
    OneNumberKey("a", "07", "");
    OneNumberKey("a", "7", "");
    assert "a" + "07" + "" == "a07";
    assert "a" + "7" + "" == "a7";
    LeadingZero("7");
    assert "0" + "7" == "07";
  }
}
