/**
 * Column-range expressions of tabular schemas (src/fairscape_cli/models/schema/utils.py): parsing
 * "n::", "::m" and "n:m" into a slice, and the overlap checks between slices and column indices.
 */
module SchemaSlices {
  import opened Wrappers
  import opened Text

  /** A Python `slice(start, stop)` with integer bounds. */
  datatype Slice = Slice(start: int, stop: int)

  /** What `GenerateSlice` raises. */
  datatype SliceError =
    | InvalidRange(rangeString: string)  // InvalidRangeException
    | ValueError                         // int("") on an empty digit group
    | AttributeError                     // raised inside InvalidRangeException.__init__

  /** `RangeOverlapException`. */
  datatype OverlapError = RangeOverlap

  predicate IsDigit(c: char)
  {
    '0' <= c <= '9'
  }

  /** Matches `[0-9]*`. */
  predicate IsDigits(s: string)
  {
    forall k :: 0 <= k < |s| ==> IsDigit(s[k])
  }

  /** `int(ds)` for a string of ASCII digits (leading zeros allowed). */
  function DigitsValue(ds: string): (v: nat)
    requires IsDigits(ds)
    decreases |ds|
  {
    if ds == [] then 0
    else DigitsValue(ds[..|ds| - 1]) * 10 + (ds[|ds| - 1] - '0') as nat
  }

  /** The decimal numeral of `n`, without leading zeros. */
  function Numeral(n: nat): (ds: string)
    ensures ds != [] && IsDigits(ds)
  {
    if n < 10 then [('0' as int + n) as char]
    else Numeral(n / 10) + [('0' as int + n % 10) as char]
  }

  /** Reading a numeral back gives the number. */
  lemma {:induction false} NumeralValue(n: nat)
    ensures DigitsValue(Numeral(n)) == n
  {
    if n >= 10 {
      NumeralValue(n / 10);
      var ds := Numeral(n);
      assert ds[..|ds| - 1] == Numeral(n / 10);
    }
  }

  /**
   * The text a `^...$` pattern without newlines is matched against: Python's `$` also matches
   * just before one final '\n'.
   */
  function RegexBody(s: string): (b: string)
    ensures b == s || b + "\n" == s
    ensures '\n' !in b ==> '\n' !in s || s == b + "\n"
  {
    if |s| > 0 && s[|s| - 1] == '\n' then s[..|s| - 1] else s
  }

  /** `^([0-9]*)::$`: the group, when the body matches. */
  function NToEndGroup(b: string): Option<string>
  {
    if |b| >= 2 && b[|b| - 2..] == "::" && IsDigits(b[..|b| - 2]) then Some(b[..|b| - 2]) else None
  }

  /** `^::([0-9]*)$`. */
  function StartToNGroup(b: string): Option<string>
  {
    if |b| >= 2 && b[..2] == "::" && IsDigits(b[2..]) then Some(b[2..]) else None
  }

  /** `^([0-9]*):([0-9]*)$`: both groups; the only colon separates them. */
  function NToMGroups(b: string): Option<(string, string)>
  {
    match Find(b, ':')
    case None => None
    case Some(i) => if IsDigits(b[..i]) && IsDigits(b[i + 1..]) then Some((b[..i], b[i + 1..])) else None
  }

  /** `int(g)`: an empty group raises `ValueError`. */
  function Int(g: string): Result<nat, SliceError>
    requires IsDigits(g)
  {
    if g == [] then Failure(ValueError) else Ok(DigitsValue(g))
  }

  /**
   * `GenerateSlice` as evidently intended: the three patterns tried in order, and
   * `InvalidRangeException` for a string none of them matches.
   */
  function GenerateSlice(rangeString: string, rowLength: int): (r: Result<Slice, SliceError>)
    ensures r.Failure? ==> r.error == ValueError || r.error == InvalidRange(rangeString)
  {
    var b := RegexBody(rangeString);
    match NToEndGroup(b)
    case Some(g) =>
      (match Int(g) case Failure(e) => Failure(e) case Ok(start) => Ok(Slice(start, rowLength)))
    case None =>
      match StartToNGroup(b)
      case Some(g) =>
        (match Int(g) case Failure(e) => Failure(e) case Ok(end) => Ok(Slice(0, end)))
      case None =>
        match NToMGroups(b)
        case Some((g1, g2)) =>
          (match Int(g1)
           case Failure(e) => Failure(e)
           case Ok(start) =>
             match Int(g2) case Failure(e) => Failure(e) case Ok(end) => Ok(Slice(start, end)))
        case None => Failure(InvalidRange(rangeString))
  }

  /**
   * `GenerateSlice` as written: constructing `InvalidRangeException` reads `self.slice_value`
   * before anything assigned it, so an unmatched string raises `AttributeError` instead.
   */
  function GenerateSliceAsWritten(rangeString: string, rowLength: int): (r: Result<Slice, SliceError>)
    ensures r.Ok? <==> GenerateSlice(rangeString, rowLength).Ok?
    ensures r.Failure? ==> r.error == ValueError || r.error == AttributeError
  {
    match GenerateSlice(rangeString, rowLength)
    case Failure(InvalidRange(_)) => Failure(AttributeError)
    case other => other
  }

  /** An unmatched string shows the difference: `AttributeError` where `InvalidRangeException` was meant. */
  lemma UnmatchedRangeRaisesAttributeError()
    ensures GenerateSliceAsWritten("a-b", 10) == Failure(AttributeError)
    ensures GenerateSlice("a-b", 10) == Failure(InvalidRange("a-b"))
  {
    assert !IsDigit('a');
    assert Find("a-b", ':') == None;
  }

  /** "n::" gives slice(n, row_length). */
  lemma NToEnd(n: nat, rowLength: int)
    ensures GenerateSlice(Numeral(n) + "::", rowLength) == Ok(Slice(n, rowLength))
  {
    var s := Numeral(n) + "::";
    assert s[|s| - 1] == ':';
    assert s[..|s| - 2] == Numeral(n) && s[|s| - 2..] == "::";
    NumeralValue(n);
  }

  /** "::m" gives slice(0, m). */
  lemma StartToN(m: nat, rowLength: int)
    ensures GenerateSlice("::" + Numeral(m), rowLength) == Ok(Slice(0, m))
  {
    var s := "::" + Numeral(m);
    var ds := Numeral(m);
    assert s[|s| - 1] == ds[|ds| - 1] && IsDigit(s[|s| - 1]);
    assert s[..2] == "::" && s[2..] == ds;
    assert NToEndGroup(s) == None by {
      assert s[|s| - 1] != ':';
    }
    NumeralValue(m);
  }

  /** "n:m" gives slice(n, m). */
  lemma NToM(n: nat, m: nat, rowLength: int)
    ensures GenerateSlice(Numeral(n) + ":" + Numeral(m), rowLength) == Ok(Slice(n, m))
  {
    var a, c := Numeral(n), Numeral(m);
    var s := a + ":" + c;
    assert s[|s| - 1] == c[|c| - 1] && IsDigit(s[|s| - 1]);
    assert NToEndGroup(s) == None by {
      assert s[|s| - 1] != ':';
    }
    assert StartToNGroup(s) == None by {
      assert s[0] == a[0] && s[0] != ':';
    }
    assert ':' !in a by {
      forall k | 0 <= k < |a| ensures a[k] != ':' { assert IsDigit(a[k]); }
    }
    assert s[|a|] == ':' && s[..|a|] == a && s[|a| + 1..] == c;
    assert Find(s, ':') == Some(|a|);
    NumeralValue(n);
    NumeralValue(m);
  }

  /** The strings `GenerateSlice` accepts: one of the three patterns with every digit group non-empty. */
  predicate Accepted(b: string)
  {
    || (|b| > 2 && b[|b| - 2..] == "::" && IsDigits(b[..|b| - 2]))
    || (|b| > 2 && b[..2] == "::" && IsDigits(b[2..]))
    || (exists i :: 0 < i < |b| - 1 && b[i] == ':' && IsDigits(b[..i]) && IsDigits(b[i + 1..]))
  }

  /** Any other string raises: a slice comes back exactly for the accepted forms. */
  lemma GenerateSliceOkIff(rangeString: string, rowLength: int)
    ensures GenerateSlice(rangeString, rowLength).Ok? <==> Accepted(RegexBody(rangeString))
  {
    var b := RegexBody(rangeString);
    if GenerateSlice(rangeString, rowLength).Ok? {
      OkAccepted(b, rangeString, rowLength);
    }
    if Accepted(b) {
      AcceptedOk(b, rangeString, rowLength);
    }
  }

  lemma OkAccepted(b: string, rangeString: string, rowLength: int)
    requires b == RegexBody(rangeString) && GenerateSlice(rangeString, rowLength).Ok?
    ensures Accepted(b)
  {
    if NToEndGroup(b).Some? {
      assert NToEndGroup(b).value != [];
    } else if StartToNGroup(b).Some? {
      assert StartToNGroup(b).value != [];
    } else {
      var i := Find(b, ':').value;
      var (g1, g2) := NToMGroups(b).value;
      assert g1 != [] && g2 != [];
      assert b[i] == ':' && IsDigits(b[..i]) && IsDigits(b[i + 1..]);
    }
  }

  lemma AcceptedOk(b: string, rangeString: string, rowLength: int)
    requires b == RegexBody(rangeString) && Accepted(b)
    ensures GenerateSlice(rangeString, rowLength).Ok?
  {
    if |b| > 2 && b[|b| - 2..] == "::" && IsDigits(b[..|b| - 2]) {
      assert NToEndGroup(b) == Some(b[..|b| - 2]);
    } else if |b| > 2 && b[..2] == "::" && IsDigits(b[2..]) {
      assert NToEndGroup(b) == None by {
        assert b[..|b| - 2][0] == b[0] == ':';
        assert !IsDigits(b[..|b| - 2]);
      }
      assert StartToNGroup(b) == Some(b[2..]);
    } else {
      var i :| 0 < i < |b| - 1 && b[i] == ':' && IsDigits(b[..i]) && IsDigits(b[i + 1..]);
      NoFormButNToM(b, i);
    }
  }

  lemma NoFormButNToM(b: string, i: int)
    requires 0 < i < |b| - 1 && b[i] == ':' && IsDigits(b[..i]) && IsDigits(b[i + 1..])
    ensures NToEndGroup(b) == None && StartToNGroup(b) == None
    ensures NToMGroups(b) == Some((b[..i], b[i + 1..]))
  {
    assert b[|b| - 1] == b[i + 1..][|b| - i - 2];
    assert b[0] == b[..i][0];
    assert b[|b| - 2..][1] == b[|b| - 1];
    assert ':' !in b[..i] by {
      forall k | 0 <= k < i ensures b[..i][k] != ':' { assert IsDigit(b[..i][k]); }
    }
    assert Find(b, ':') == Some(i);
  }

  /**
   * `CheckSliceSliceOverlap` as written: raise when the new slice starts before the other and
   * reaches its start, the other way round, or when both bounds are equal.
   */
  function CheckSliceSliceOverlapAsWritten(newSlice: Slice, comparison: Slice): (r: Outcome<OverlapError>)
    ensures newSlice == comparison ==> r.Fail?
    ensures newSlice.start == comparison.start && newSlice.stop != comparison.stop ==> r == Pass
  {
    if newSlice.stop >= comparison.start && newSlice.start < comparison.start then Fail(RangeOverlap)
    else if comparison.stop >= newSlice.start && comparison.start < newSlice.start then Fail(RangeOverlap)
    else if newSlice.start == comparison.start && newSlice.stop == comparison.stop then Fail(RangeOverlap)
    else Pass
  }

  /** The column range a slice covers, both bounds included as the checks treat them. */
  predicate Intersect(a: Slice, b: Slice)
  {
    a.start <= b.stop && b.start <= a.stop
  }

  predicate WellFormed(s: Slice)
  {
    s.start <= s.stop
  }

  /** Whatever the check as written rejects does overlap. */
  lemma AsWrittenSound(a: Slice, b: Slice)
    requires WellFormed(a) && WellFormed(b)
    ensures CheckSliceSliceOverlapAsWritten(a, b).Fail? ==> Intersect(a, b)
  {
  }

  /** It lets two ranges that share a start but not a stop through, though they overlap. */
  lemma SameStartOverlapMissed()
    ensures Intersect(Slice(3, 5), Slice(3, 10))
    ensures CheckSliceSliceOverlapAsWritten(Slice(3, 5), Slice(3, 10)) == Pass
  {
  }

  /** `CheckSliceSliceOverlap` as evidently intended: equal starts always overlap. */
  function CheckSliceSliceOverlap(newSlice: Slice, comparison: Slice): (r: Outcome<OverlapError>)
    ensures WellFormed(newSlice) && WellFormed(comparison) ==> (r.Fail? <==> Intersect(newSlice, comparison))
  {
    if newSlice.stop >= comparison.start && newSlice.start < comparison.start then Fail(RangeOverlap)
    else if comparison.stop >= newSlice.start && comparison.start < newSlice.start then Fail(RangeOverlap)
    else if newSlice.start == comparison.start then Fail(RangeOverlap)
    else Pass
  }

  /** The corrected check is symmetric in its two slices. */
  lemma OverlapSymmetric(a: Slice, b: Slice)
    ensures CheckSliceSliceOverlap(a, b) == CheckSliceSliceOverlap(b, a)
  {
  }

  /** `CheckIntSliceOverlap`: raise when the column lies strictly inside the slice or on either bound. */
  function CheckIntSliceOverlap(column: int, s: Slice): (r: Outcome<OverlapError>)
    ensures WellFormed(s) ==> (r.Fail? <==> s.start <= column <= s.stop)
    ensures !WellFormed(s) ==> (r.Fail? <==> column == s.start || column == s.stop)
  {
    if column > s.start && column < s.stop then Fail(RangeOverlap)
    else if column == s.start || column == s.stop then Fail(RangeOverlap)
    else Pass
  }

  /** A column clashes with a slice exactly when the one-column slice at it overlaps the slice. */
  lemma IntAsUnitSlice(column: int, s: Slice)
    requires WellFormed(s)
    ensures CheckIntSliceOverlap(column, s) == CheckSliceSliceOverlap(Slice(column, column), s)
  {
  }
}
