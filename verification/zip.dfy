/** `clean_full_zip`: the text of a ZIP code value with commas and every
    `.0` removed, cut to its first five characters. */
module Zip {
  import opened Chars
  import opened Text

  /** `s.replace(ch, '')` for a one-character `ch`. */
  function RemoveChar(s: string, ch: char): (r: string)
    ensures |r| <= |s|
    ensures forall i :: 0 <= i < |r| ==> r[i] != ch
  {
    if |s| == 0 then ""
    else (if s[0] == ch then "" else [s[0]]) + RemoveChar(s[1..], ch)
  }

  /** Every copy of `ch` goes and every other character stays, as often as
      it occurred: the text shrinks by exactly the number of copies of `ch`. */
  lemma {:induction false} RemoveCharKeepsOthers(s: string, ch: char)
    ensures multiset(RemoveChar(s, ch)) == multiset(s)[ch := 0]
    ensures |RemoveChar(s, ch)| + multiset(s)[ch] == |s|
    decreases |s|
  {
    if |s| > 0 {
      RemoveCharKeepsOthers(s[1..], ch);
      assert s == [s[0]] + s[1..];
      assert RemoveChar(s, ch) == (if s[0] == ch then "" else [s[0]]) + RemoveChar(s[1..], ch);
    }
  }

  /** `s.replace('.0', '')`: scanning left to right, each `.0` that does not
      overlap one already removed is dropped. */
  function RemoveDotZero(s: string): (r: string)
    ensures |r| <= |s|
    // only `.` and `0` characters are ever dropped, and nothing is reordered
    ensures Significant(r) == Significant(s)
  {
    if |s| < 2 then s
    else if s[0] == '.' && s[1] == '0' then
      assert s == [s[0]] + ([s[1]] + s[2..]);
      SignificantAppend([s[0]], [s[1]] + s[2..]);
      SignificantAppend([s[1]], s[2..]);
      RemoveDotZero(s[2..])
    else
      var rest := RemoveDotZero(s[1..]);
      SignificantAppend([s[0]], rest);
      assert s == [s[0]] + s[1..];
      SignificantAppend([s[0]], s[1..]);
      [s[0]] + rest
  }

  /** `clean_full_zip(zip_code)` on the text `str(zip_code)`. */
  function CleanFullZip(text: string): (r: string)
    ensures |r| <= 5
    ensures forall i :: 0 <= i < |r| ==> r[i] != ','
    // a prefix of the cleaned text: as much of it as fits in five characters
    ensures var t := RemoveDotZero(RemoveChar(text, ','));
      |r| == (if |t| < 5 then |t| else 5) && r == t[..|r|]
  {
    var t := RemoveDotZero(RemoveChar(text, ','));
    NoCommaAfterRemoveDotZero(RemoveChar(text, ','));
    if |t| <= 5 then t else t[..5]
  }

  /** The characters other than `.` and `0`, in order. */
  function Significant(s: string): string {
    if |s| == 0 then "" else (if s[0] == '.' || s[0] == '0' then "" else [s[0]]) + Significant(s[1..])
  }

  lemma {:induction false} SignificantAppend(a: string, b: string)
    ensures Significant(a + b) == Significant(a) + Significant(b)
    decreases |a|
  {
    if |a| > 0 {
      assert (a + b)[1..] == a[1..] + b;
      SignificantAppend(a[1..], b);
    } else {
      assert a + b == b;
    }
  }

  /** Removing a character works piece by piece. */
  lemma {:induction false} RemoveCharAppend(a: string, b: string, ch: char)
    ensures RemoveChar(a + b, ch) == RemoveChar(a, ch) + RemoveChar(b, ch)
    decreases |a|
  {
    if |a| > 0 {
      assert (a + b)[1..] == a[1..] + b;
      RemoveCharAppend(a[1..], b, ch);
    } else {
      assert a + b == b;
    }
  }

  /** Text that does not hold the character is left alone. */
  lemma {:induction false} RemoveCharAbsent(s: string, ch: char)
    requires forall i :: 0 <= i < |s| ==> s[i] != ch
    ensures RemoveChar(s, ch) == s
    decreases |s|
  {
    if |s| > 0 {
      RemoveCharAbsent(s[1..], ch);
      assert s == [s[0]] + s[1..];
    }
  }

  /** Text without a period is left alone by `replace('.0', '')`. */
  lemma {:induction false} RemoveDotZeroWithoutPeriod(s: string)
    requires forall i :: 0 <= i < |s| ==> s[i] != '.'
    ensures RemoveDotZero(s) == s
    decreases |s|
  {
    if |s| >= 2 {
      RemoveDotZeroWithoutPeriod(s[1..]);
      assert s == [s[0]] + s[1..];
    }
  }

  /** `replace('.0', '')` works piece by piece when the left piece does not end
      in a period (so no `.0` straddles the cut). */
  lemma {:induction false} RemoveDotZeroAppend(a: string, b: string)
    requires |a| == 0 || a[|a| - 1] != '.'
    ensures RemoveDotZero(a + b) == RemoveDotZero(a) + RemoveDotZero(b)
    decreases |a|
  {
    var s := a + b;
    if |a| == 0 {
      assert s == b;
    } else if |a| == 1 {
      if |b| == 0 {
        assert s == a;
      } else {
        assert s[0] == a[0] && s[0] != '.' && s[1..] == b;
        assert RemoveDotZero(s) == [s[0]] + RemoveDotZero(b);
      }
    } else if a[0] == '.' && a[1] == '0' {
      assert s[0] == '.' && s[1] == '0' && s[2..] == a[2..] + b;
      assert RemoveDotZero(s) == RemoveDotZero(a[2..] + b);
      assert RemoveDotZero(a) == RemoveDotZero(a[2..]);
      RemoveDotZeroAppend(a[2..], b);
    } else {
      assert s[0] == a[0] && s[1] == a[1] && s[1..] == a[1..] + b;
      assert RemoveDotZero(s) == [a[0]] + RemoveDotZero(a[1..] + b);
      assert RemoveDotZero(a) == [a[0]] + RemoveDotZero(a[1..]);
      RemoveDotZeroAppend(a[1..], b);
      Associative([a[0]], RemoveDotZero(a[1..]), RemoveDotZero(b));
    }
  }

  lemma {:induction false} NoCommaAfterRemoveDotZero(s: string)
    requires forall i :: 0 <= i < |s| ==> s[i] != ','
    ensures forall i :: 0 <= i < |RemoveDotZero(s)| ==> RemoveDotZero(s)[i] != ','
    decreases |s|
  {
    if |s| >= 2 {
      if s[0] == '.' && s[1] == '0' {
        NoCommaAfterRemoveDotZero(s[2..]);
      } else {
        NoCommaAfterRemoveDotZero(s[1..]);
      }
    }
  }

  /** A ZIP code read as a number prints as `43215.0` and comes back as `43215`. */
  lemma ZipOfFloatText(d: string)
    requires AllDigits(d)
    ensures CleanFullZip(d + ".0") == d[..if |d| < 5 then |d| else 5]
  {
    RemoveCharAbsent(d + ".0", ',');
    RemoveDotZeroAppend(d, ".0");
    RemoveDotZeroWithoutPeriod(d);
    assert d + "" == d;
  }

  /** A ZIP+4 code `43215-1234` comes back as its five-digit ZIP. */
  lemma ZipOfZipPlusFour(d: string, e: string)
    requires |d| == 5 && AllDigits(d)
    requires forall i :: 0 <= i < |e| ==> e[i] != ',' && e[i] != '.'
    ensures CleanFullZip(d + "-" + e) == d
  {
    var s := d + "-" + e;
    RemoveCharAbsent(s, ',');
    RemoveDotZeroWithoutPeriod(s);
    assert s[..5] == d;
  }

  /** `replace` makes a single pass: removing a `.0` can bring a new `.0`
      together, which stays, so cleaning twice can differ from cleaning once. */
  lemma RemoveDotZeroSinglePass()
    ensures RemoveDotZero("..00") == ".0"
    ensures RemoveDotZero(RemoveDotZero("..00")) == ""
  {
    assert "..00"[1..] == ".00";
    assert ".00"[2..] == "0";
    assert ".0"[2..] == "";
  }

  /** A period not followed by `0` is kept, and the scan resumes just after it. */
  lemma RemoveDotZeroKeepsLonePeriod(t: string)
    requires t == "" || t[0] != '0'
    ensures RemoveDotZero("." + t) == "." + RemoveDotZero(t)
  {
    assert ("." + t)[1..] == t;
  }

  /** A `.0` at the front is dropped, and the scan resumes after its `0`. */
  lemma RemoveDotZeroDropsPair(t: string)
    ensures RemoveDotZero(".0" + t) == RemoveDotZero(t)
  {
    assert (".0" + t)[2..] == t;
  }

  /** A decimal part that does not start with `0` survives, period included:
      only the first five characters are kept. */
  lemma ZipWithDecimals()
    ensures CleanFullZip("432.15") == "432.1"
  {
    RemoveCharAbsent("432.15", ',');
    assert "432.15" == "432" + ".15";
    RemoveDotZeroAppend("432", ".15");
    RemoveDotZeroWithoutPeriod("432");
    RemoveDotZeroKeepsLonePeriod("15");
    RemoveDotZeroWithoutPeriod("15");
    assert "432" + ("." + "15") == "432.15";
  }

  predicate AllDigits(s: string) {
    forall i :: 0 <= i < |s| ==> IsDigit(s[i])
  }

  /** A number exported with a thousands separator and a float suffix,
      `43,215.0`, comes back as its digits, cut to five. */
  lemma ZipOfGroupedFloat(a: string, b: string)
    requires AllDigits(a) && AllDigits(b)
    ensures CleanFullZip(a + "," + b + ".0") == (a + b)[..if |a + b| < 5 then |a + b| else 5]
  {
    var t := a + b;
    GroupedFloatWithoutComma(a, b);
    assert RemoveDotZero(t + ".0") == t by {
      assert AllDigits(t);
      RemoveDotZeroAppend(t, ".0");
      RemoveDotZeroWithoutPeriod(t);
      assert RemoveDotZero(".0") == "";
      assert t + "" == t;
    }
  }

  lemma GroupedFloatWithoutComma(a: string, b: string)
    requires AllDigits(a) && AllDigits(b)
    ensures RemoveChar(a + "," + b + ".0", ',') == (a + b) + ".0"
  {
    assert a + "," + b + ".0" == a + ("," + (b + ".0"));
    RemoveCharAppend(a, "," + (b + ".0"), ',');
    RemoveCharAppend(",", b + ".0", ',');
    RemoveCharAbsent(a, ',');
    RemoveCharAbsent(b + ".0", ',');
    assert RemoveChar(",", ',') == "";
    assert "" + (b + ".0") == b + ".0";
    assert a + (b + ".0") == (a + b) + ".0";
  }

  lemma ZipExample()
    ensures CleanFullZip("43,215.0") == "43215"
  {
    ZipOfGroupedFloat("43", "215");
    assert "43" + "," + "215" + ".0" == "43,215.0";
    assert ("43" + "215")[..5] == "43215";
  }
}
