/** Splitting the right-hand side of a new-format ingredient ("200 г") into
    its quantity and its unit. The boundary is the first space followed by a
    Cyrillic letter; when there is none, the scan still stops one character
    short of the end, so the last character is lost. */
module QuantityUnit {

  /** Code points 1040..1103, "А" through "я". "Ё" (1025) and "ё" (1105) lie outside. */
  predicate IsCyrillic(c: char) {
    1040 <= c as int <= 1103
  }

  /** Position `i` is a split point: a space whose next character is Cyrillic. */
  predicate IsSplitAt(s: string, i: int) {
    0 <= i < |s| - 1 && s[i] == ' ' && IsCyrillic(s[i + 1])
  }

  predicate NoSplitBefore(s: string, n: int) {
    forall j :: 0 <= j < n ==> !IsSplitAt(s, j)
  }

  /** `s` without its last character; the empty string stays empty. */
  function DropLast(s: string): (r: string) {
    if |s| == 0 then "" else s[..|s| - 1]
  }

  /** Reference definition of the scan, by recursion on the string:
      (quantity, unit). */
  function QuantityAndUnit(s: string): (qu: (string, string)) {
    if |s| < 2 then ("", "")
    else if s[0] == ' ' && IsCyrillic(s[1]) then ("", s[1..])
    else
      var (q, u) := QuantityAndUnit(s[1..]);
      ([s[0]] + q, u)
  }

  /** At the first split point `i`, the quantity is everything before the
      space and the unit everything after it. */
  lemma {:induction false} QuantityAndUnitAtSplit(s: string, i: nat)
    requires IsSplitAt(s, i) && NoSplitBefore(s, i)
    ensures QuantityAndUnit(s) == (s[..i], s[i + 1..])
  {
    if i > 0 {
      var t := s[1..];
      assert !IsSplitAt(s, 0);
      assert IsSplitAt(t, i - 1);
      assert NoSplitBefore(t, i - 1) by {
        forall j | 0 <= j < i - 1 ensures !IsSplitAt(t, j) {
          assert !IsSplitAt(s, j + 1);
        }
      }
      QuantityAndUnitAtSplit(t, i - 1);
      assert s[..i] == [s[0]] + t[..i - 1];
      assert s[i + 1..] == t[i..];
    }
  }

  /** Without any split point the unit is empty and the quantity is the
      input minus its last character. */
  lemma {:induction false} QuantityAndUnitNoSplit(s: string)
    requires NoSplitBefore(s, |s|)
    ensures QuantityAndUnit(s) == (DropLast(s), "")
  {
    if |s| >= 2 {
      var t := s[1..];
      assert !IsSplitAt(s, 0);
      assert NoSplitBefore(t, |t|) by {
        forall j | 0 <= j < |t| ensures !IsSplitAt(t, j) {
          assert !IsSplitAt(s, j + 1);
        }
      }
      QuantityAndUnitNoSplit(t);
      assert DropLast(s) == [s[0]] + DropLast(t);
    }
  }

  /** The result of the scan, characterised without reference to the scan:
      an empty unit means no split point exists, a non-empty one means the
      quantity ends at the first split point. */
  lemma {:induction false} QuantityAndUnitSpec(s: string)
    ensures var (q, u) := QuantityAndUnit(s);
      && (u == "" ==> NoSplitBefore(s, |s|) && q == DropLast(s))
      && (u != "" ==> IsSplitAt(s, |q|) && NoSplitBefore(s, |q|) && q == s[..|q|] && u == s[|q| + 1..])
  {
    if |s| >= 2 && !(s[0] == ' ' && IsCyrillic(s[1])) {
      var t := s[1..];
      QuantityAndUnitSpec(t);
      var (q, u) := QuantityAndUnit(t);
      assert QuantityAndUnit(s) == ([s[0]] + q, u);
      if u == "" {
        assert NoSplitBefore(s, |s|) by {
          forall j | 0 <= j < |s| ensures !IsSplitAt(s, j) {
            if j > 0 { assert !IsSplitAt(t, j - 1); }
          }
        }
        assert DropLast(s) == [s[0]] + DropLast(t);
      } else {
        assert IsSplitAt(s, |q| + 1) by { assert IsSplitAt(t, |q|); }
        assert NoSplitBefore(s, |q| + 1) by {
          forall j | 0 <= j < |q| + 1 ensures !IsSplitAt(s, j) {
            if j > 0 { assert !IsSplitAt(t, j - 1); }
          }
        }
        assert [s[0]] + q == s[..|q| + 1];
      }
    } else if |s| < 2 {
      assert NoSplitBefore(s, |s|);
    }
  }

  /** The unit is non-empty exactly when some split point exists; it then starts
      with a Cyrillic letter, and quantity, one space and unit give back the input. */
  lemma UnitIffSplit(s: string)
    ensures var (q, u) := QuantityAndUnit(s);
      && (u != "" <==> exists i :: IsSplitAt(s, i))
      && (u != "" ==> IsCyrillic(u[0]) && q + " " + u == s)
      && (u == "" ==> |q| == if |s| == 0 then 0 else |s| - 1)
  {
    QuantityAndUnitSpec(s);
    var (q, u) := QuantityAndUnit(s);
    if u != "" {
      assert IsSplitAt(s, |q|);
      assert s == s[..|q|] + [s[|q|]] + s[|q| + 1..];
    } else {
      assert forall i :: !IsSplitAt(s, i);
    }
  }

  /** `extract_quantity_and_unit`: scans up to, but not including, the last
      character, accumulating the quantity until the first split point. */
  method ExtractQuantityAndUnit(s: string) returns (quantity: string, unit: string)
    ensures unit == "" ==> NoSplitBefore(s, |s|) && quantity == DropLast(s)
    ensures unit != "" ==> && IsSplitAt(s, |quantity|) && NoSplitBefore(s, |quantity|)
                           && quantity == s[..|quantity|] && unit == s[|quantity| + 1..]
    ensures (quantity, unit) == QuantityAndUnit(s)
  {
    quantity, unit := "", "";
    var i := 0;
    while i < |s| - 1
      invariant 0 <= i <= |s|
      invariant |s| > 0 ==> i <= |s| - 1
      invariant quantity == s[..i]
      invariant unit == ""
      invariant NoSplitBefore(s, i)
    {
      if s[i] == ' ' && 1040 <= s[i + 1] as int <= 1103 {
        unit := s[i + 1..];
        break;
      }
      quantity := quantity + [s[i]];
      i := i + 1;
    }
    if unit == "" {
      assert !IsSplitAt(s, i);
      QuantityAndUnitNoSplit(s);
    } else {
      QuantityAndUnitAtSplit(s, i);
    }
  }

  /** The last character is dropped when nothing splits: "200" gives "20". */
  lemma DigitsOnlyLoseLastCharacter()
    ensures QuantityAndUnit("200") == ("20", "")
    ensures QuantityAndUnit("7") == ("", "")
  {
    QuantityAndUnitNoSplit("200");
    assert DropLast("200") == "20";
  }

  /** "200 г" splits into "200" and "г"; "1 ёж" does not split, since "ё" is outside the range. */
  lemma ExampleSplits()
    ensures QuantityAndUnit("200 г") == ("200", "г")
    ensures QuantityAndUnit("2 ст. ложки") == ("2", "ст. ложки")
    ensures QuantityAndUnit("1 ёж") == ("1 ё", "")
  {
    var a, b, c := "200 г", "2 ст. ложки", "1 ёж";
    QuantityAndUnitAtSplit(a, 3);
    assert a[..3] == "200" && a[4..] == "г";
    QuantityAndUnitAtSplit(b, 1);
    assert b[..1] == "2" && b[2..] == "ст. ложки";
    assert !IsCyrillic('ё');
    QuantityAndUnitNoSplit(c);
    assert DropLast(c) == "1 ё";
  }
}
